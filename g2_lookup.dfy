// Read-only queries over a model's surface hierarchy and an instance's
// surface-override list (the lookup half of G2_surfaces.cpp).
module G2Lookup {
  import opened Text
  import opened Ghoul2Types

  /** A slot that names a mesh surface: neither free nor generated. */
  predicate IsRealSlot(si: SurfaceInfo)
  {
    si.surface != GENERATED_SURFACE && si.surface != FREE_SLOT
  }

  /** Every real slot names a surface of the mesh. */
  ghost predicate RealSlotsValid(m: Mesh, slist: seq<SurfaceInfo>)
  {
    forall i :: 0 <= i < |slist| && IsRealSlot(slist[i]) ==> ValidSurface(m, slist[i].surface)
  }

  // ---------------------------------------------------------------------
  // G2_FindOverrideSurface

  /** The first slot whose `surface` is `surfaceNum`, if any. */
  method FindOverrideSurface(surfaceNum: int, slist: seq<SurfaceInfo>) returns (r: Option<nat>)
    ensures r == FirstOverride(slist, surfaceNum)
    ensures r.Some? ==> r.value < |slist| && slist[r.value].surface == surfaceNum
    ensures r.None? <==> forall j :: 0 <= j < |slist| ==> slist[j].surface != surfaceNum
  {
    var i := 0;
    while i < |slist|
      invariant 0 <= i <= |slist|
      invariant FirstOverride(slist, surfaceNum) == FirstOverrideFrom(slist, surfaceNum, i)
    {
      if slist[i].surface == surfaceNum {
        return Some(i);
      }
      i := i + 1;
    }
    return None;
  }

  // ---------------------------------------------------------------------
  // G2_IsSurfaceLegal

  /** Index of the first mesh surface at or after `i` named `name` (ignoring case), or -1. */
  function FirstNamedFrom(m: Mesh, name: string, i: nat): (r: int)
    requires i <= |m.names|
    ensures r == -1 || (i <= r < |m.names| && SameIgnoringCase(name, m.names[r]))
    ensures r == -1 ==> forall j :: i <= j < |m.names| ==> !SameIgnoringCase(name, m.names[j])
    ensures r != -1 ==> forall j :: i <= j < r ==> !SameIgnoringCase(name, m.names[j])
    decreases |m.names| - i
  {
    if i == |m.names| then -1
    else if SameIgnoringCase(name, m.names[i]) then i
    else FirstNamedFrom(m, name, i + 1)
  }

  function FirstNamed(m: Mesh, name: string): int
  {
    FirstNamedFrom(m, name, 0)
  }

  /** G2_IsSurfaceLegal: the index of the first surface with this name and its
      default flags, or -1 (flags then carry no meaning). */
  method IsSurfaceLegal(m: Mesh, name: string) returns (r: int, flags: bv32)
    requires MeshWF(m)
    ensures r == FirstNamed(m, name)
    ensures r != -1 ==> ValidSurface(m, r) && SameIgnoringCase(name, m.names[r]) && flags == m.defaultFlags[r]
    ensures r == -1 <==> forall j :: 0 <= j < |m.names| ==> !SameIgnoringCase(name, m.names[j])
  {
    flags := 0;
    var i := 0;
    while i < |m.names|
      invariant 0 <= i <= |m.names|
      invariant FirstNamed(m, name) == FirstNamedFrom(m, name, i)
    {
      if SameIgnoringCase(name, m.names[i]) {
        return i, m.defaultFlags[i];
      }
      i := i + 1;
    }
    return -1, flags;
  }

  // ---------------------------------------------------------------------
  // G2_FindSurface (by name)

  /** Index of the last real slot below `i` whose surface is named `name`, or -1. */
  function LastNamedBelow(m: Mesh, slist: seq<SurfaceInfo>, name: string, i: nat): (r: int)
    requires RealSlotsValid(m, slist) && i <= |slist|
    ensures r == -1 || (0 <= r < i && IsRealSlot(slist[r]) && SameIgnoringCase(m.names[slist[r].surface], name))
    ensures r == -1 ==> forall j :: 0 <= j < i ==> !(IsRealSlot(slist[j]) && SameIgnoringCase(m.names[slist[j].surface], name))
    ensures r != -1 ==> forall j :: r < j < i ==> !(IsRealSlot(slist[j]) && SameIgnoringCase(m.names[slist[j].surface], name))
  {
    if i == 0 then -1
    else if IsRealSlot(slist[i - 1]) && SameIgnoringCase(m.names[slist[i - 1].surface], name) then i - 1
    else LastNamedBelow(m, slist, name, i - 1)
  }

  function LastNamed(m: Mesh, slist: seq<SurfaceInfo>, name: string): int
    requires RealSlotsValid(m, slist)
  {
    LastNamedBelow(m, slist, name, |slist|)
  }

  /** G2_FindSurface by name: scans the list from the back and returns the slot
      index of the last real slot naming this surface, or -1. */
  method FindSurface(m: Mesh, slist: seq<SurfaceInfo>, name: string) returns (r: int)
    requires RealSlotsValid(m, slist)
    ensures r == LastNamed(m, slist, name)
    ensures r != -1 ==> 0 <= r < |slist| && IsRealSlot(slist[r]) && SameIgnoringCase(m.names[slist[r].surface], name)
  {
    var i := |slist| - 1;
    while i >= 0
      invariant -1 <= i < |slist|
      invariant LastNamed(m, slist, name) == LastNamedBelow(m, slist, name, i + 1)
    {
      if slist[i].surface != GENERATED_SURFACE && slist[i].surface != FREE_SLOT {
        if SameIgnoringCase(m.names[slist[i].surface], name) {
          return i;
        }
      }
      i := i - 1;
    }
    return -1;
  }

  // ---------------------------------------------------------------------
  // G2_IsSurfaceOff

  /** The flags reported for a surface name: the override's flags when the list
      names it, else the default flags of the first mesh surface of that name,
      else 0. */
  function SurfaceOffFlags(m: Mesh, slist: seq<SurfaceInfo>, name: string): bv32
    requires MeshWF(m) && RealSlotsValid(m, slist)
  {
    var k := LastNamed(m, slist, name);
    if k != -1 then slist[k].offFlags
    else
      var l := FirstNamed(m, name);
      if l != -1 then m.defaultFlags[l] else 0
  }

  method IsSurfaceOff(m: Mesh, slist: seq<SurfaceInfo>, name: string) returns (r: bv32)
    requires MeshWF(m) && RealSlotsValid(m, slist)
    ensures r == SurfaceOffFlags(m, slist, name)
  {
    var k := FindSurface(m, slist, name);
    if k != -1 {
      return slist[k].offFlags;
    }
    var i := 0;
    while i < |m.names|
      invariant 0 <= i <= |m.names|
      invariant FirstNamed(m, name) == FirstNamedFrom(m, name, i)
    {
      if SameIgnoringCase(name, m.names[i]) {
        return m.defaultFlags[i];
      }
      i := i + 1;
    }
    return 0;
  }

  // ---------------------------------------------------------------------
  // G2_GetParentSurface

  /** The parent of a surface: -1 at a root, otherwise a surface listing it as a child. */
  function GetParentSurface(m: Mesh, index: int): (r: int)
    requires MeshWF(m) && ValidSurface(m, index)
    ensures r == -1 || (ValidSurface(m, r) && index in m.children[r])
    ensures r != -1 ==> m.rank[index] < m.rank[r]
  {
    m.parent[index]
  }

  // ---------------------------------------------------------------------
  // G2_IsSurfaceRendered

  /**
   * The flags the query uses for ancestor `p`: an override naming `p` if the
   * list has one, otherwise the default flags of the QUERIED surface (the
   * legality check inside the loop is given the queried name, not the
   * ancestor's).
   */
  function AncestorFlagsAsWritten(m: Mesh, slist: seq<SurfaceInfo>, name: string, p: int): bv32
    requires MeshWF(m) && RealSlotsValid(m, slist) && ValidSurface(m, p) && FirstNamed(m, name) != -1
  {
    var k := LastNamed(m, slist, m.names[p]);
    if k != -1 then slist[k].offFlags else m.defaultFlags[FirstNamed(m, name)]
  }

  /** Some ancestor from `p` upwards has NODESCENDANTS in the flags the query uses. */
  predicate ForcedOffFrom(m: Mesh, slist: seq<SurfaceInfo>, name: string, p: int)
    requires MeshWF(m) && RealSlotsValid(m, slist) && FirstNamed(m, name) != -1
    requires p == -1 || ValidSurface(m, p)
    decreases if p == -1 then 0 else |m.names| - m.rank[p] + 1
  {
    p != -1 &&
    (AncestorFlagsAsWritten(m, slist, name, p) & NODESCENDANTS != 0 ||
     ForcedOffFrom(m, slist, name, m.parent[p]))
  }

  /** The surface's own flags: its override if listed, else its default. */
  function OwnFlags(m: Mesh, slist: seq<SurfaceInfo>, name: string): bv32
    requires MeshWF(m) && RealSlotsValid(m, slist) && FirstNamed(m, name) != -1
  {
    var k := LastNamed(m, slist, name);
    if k != -1 then slist[k].offFlags else m.defaultFlags[FirstNamed(m, name)]
  }

  method IsSurfaceRendered(m: Mesh, name: string, slist: seq<SurfaceInfo>) returns (flags: bv32)
    requires MeshWF(m) && RealSlotsValid(m, slist)
    requires FirstNamed(m, name) != -1
    ensures ForcedOffFrom(m, slist, name, m.parent[FirstNamed(m, name)]) ==> flags == OFF
    ensures !ForcedOffFrom(m, slist, name, m.parent[FirstNamed(m, name)]) ==> flags == OwnFlags(m, slist, name)
  {
    var surfNum;
    surfNum, flags := IsSurfaceLegal(m, name);
    var k := FindSurface(m, slist, name);
    if k != -1 {
      flags := slist[k].offFlags;
    }
    ghost var own := flags;
    surfNum := m.parent[surfNum];
    while surfNum != -1
      invariant surfNum == -1 || ValidSurface(m, surfNum)
      invariant (if ForcedOffFrom(m, slist, name, m.parent[FirstNamed(m, name)]) then OFF else own) ==
                (if ForcedOffFrom(m, slist, name, surfNum) then OFF else flags)
      decreases if surfNum == -1 then 0 else |m.names| - m.rank[surfNum] + 1
    {
      var parentSurfNum, parentFlags := IsSurfaceLegal(m, name);
      var pk := FindSurface(m, slist, m.names[surfNum]);
      if pk != -1 {
        parentFlags := slist[pk].offFlags;
      }
      assert parentFlags == AncestorFlagsAsWritten(m, slist, name, surfNum);
      if parentFlags & NODESCENDANTS != 0 {
        flags := OFF;
      }
      surfNum := m.parent[surfNum];
    }
  }

  // ---------------------------------------------------------------------
  // The ancestor test read with the ancestor's own name

  /** The flags the ancestor test evidently means for ancestor `p`: its override,
      else the default flags of the first surface carrying the ancestor's name. */
  function AncestorFlagsIntended(m: Mesh, slist: seq<SurfaceInfo>, p: int): bv32
    requires MeshWF(m) && RealSlotsValid(m, slist) && ValidSurface(m, p)
  {
    var k := LastNamed(m, slist, m.names[p]);
    if k != -1 then slist[k].offFlags
    else
      var l := FirstNamed(m, m.names[p]);
      if l != -1 then m.defaultFlags[l] else m.defaultFlags[p]
  }

  predicate ForcedOffIntended(m: Mesh, slist: seq<SurfaceInfo>, p: int)
    requires MeshWF(m) && RealSlotsValid(m, slist)
    requires p == -1 || ValidSurface(m, p)
    decreases if p == -1 then 0 else |m.names| - m.rank[p] + 1
  {
    p != -1 &&
    (AncestorFlagsIntended(m, slist, p) & NODESCENDANTS != 0 ||
     ForcedOffIntended(m, slist, m.parent[p]))
  }

  /** Corrected G2_IsSurfaceRendered: OFF when an ancestor, read under its own
      name, has NODESCENDANTS; otherwise the surface's own flags. */
  function RenderedFlagsIntended(m: Mesh, slist: seq<SurfaceInfo>, name: string): (r: bv32)
    requires MeshWF(m) && RealSlotsValid(m, slist) && FirstNamed(m, name) != -1
    ensures r == OFF || r == OwnFlags(m, slist, name)
    ensures ForcedOffIntended(m, slist, m.parent[FirstNamed(m, name)]) ==> r == OFF
  {
    if ForcedOffIntended(m, slist, m.parent[FirstNamed(m, name)]) then OFF else OwnFlags(m, slist, name)
  }

  /** With no overrides, an ancestor whose default flags carry NODESCENDANTS
      switches every surface below it off in the corrected query. */
  lemma {:induction false} IntendedHonoursAncestorDefaults(m: Mesh, name: string, p: int, a: int)
    requires MeshWF(m) && ValidSurface(m, p) && ValidSurface(m, a) && IsAncestorOrSelf(m, a, p)
    requires FirstNamed(m, m.names[a]) == a && m.defaultFlags[a] & NODESCENDANTS != 0
    ensures ForcedOffIntended(m, [], p)
    decreases |m.names| - m.rank[p]
  {
    if p != a {
      IntendedHonoursAncestorDefaults(m, name, m.parent[p], a);
    } else {
      assert LastNamed(m, [], m.names[a]) == -1;
    }
  }

  /** A two-surface model: "torso" (root, NODESCENDANTS by default) above "head". */
  function TorsoHead(): Mesh
  {
    Mesh(["torso", "head"], [-1, 0], [[1], []], [NODESCENDANTS, 0], [1, 0])
  }

  /** On that model with an empty override list, the query as written reports
      "head" with flags 0, while the corrected query reports it OFF. */
  lemma TorsoHeadRendered()
    ensures MeshWF(TorsoHead()) && FirstNamed(TorsoHead(), "head") == 1
    ensures !ForcedOffFrom(TorsoHead(), [], "head", 0) && OwnFlags(TorsoHead(), [], "head") == 0
    ensures RenderedFlagsIntended(TorsoHead(), [], "head") == OFF
  {
    var m := TorsoHead();
    assert !SameIgnoringCase("head", "torso");
    assert SameIgnoringCase("head", "head");
    assert FirstNamed(m, "torso") == 0 by {
      assert SameIgnoringCase("torso", "torso");
    }
    assert IsAncestorOrSelf(m, 0, 0);
    IntendedHonoursAncestorDefaults(m, "head", 0, 0);
  }
}
