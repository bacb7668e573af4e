// The mutating half of G2_surfaces.cpp: switching surfaces on and off,
// generated (procedural) surfaces, and re-rooting a model, which prunes the
// override list, the bolt list and the models bolted to pruned bolts.
module G2Surfaces {
  import opened Text
  import opened Ghoul2Types
  import opened G2Lookup
  import opened G2Misc
  import opened G2Bolts

  /** Override slots never name the same mesh surface twice. */
  predicate UniqueReal(slist: seq<SurfaceInfo>)
  {
    forall i, j :: 0 <= i < j < |slist| && IsRealSlot(slist[i]) && IsRealSlot(slist[j]) ==>
      slist[i].surface != slist[j].surface
  }

  /** The override list is empty or its last slot is not free. */
  predicate SlotsTrimmed(slist: seq<SurfaceInfo>)
  {
    slist == [] || slist[|slist| - 1].surface != FREE_SLOT
  }

  /** A fresh override slot for mesh surface `s`. The remaining fields are
      zero-initialised. */
  function NewOverride(s: int, flags: bv32): SurfaceInfo
  {
    SurfaceInfo(s, flags, 0, 0.0, 0.0, 0)
  }

  // ---------------------------------------------------------------------
  // G2_SetSurfaceOnOff

  /** The two bits a caller may set on a surface that is not yet in the list. */
  const ON_OFF_BITS: bv32 := OFF | NODESCENDANTS

  /** C's logical negation `!x` of an int. */
  function LogicalNot(x: bv32): bv32 { if x == 0 then 1 else 0 }

  /** The flags G2_SetSurfaceOnOff stores for a surface it appends, as written:
      `flags &= !(OFF | NODESCENDANTS)` uses logical negation, which is 0, so
      every default bit is cleared and only the requested on/off bits remain. */
  function AppendedFlagsAsWritten(defaultFlags: bv32, offFlags: bv32): (r: bv32)
    ensures r == offFlags & ON_OFF_BITS
  {
    var flags := defaultFlags & LogicalNot(ON_OFF_BITS);
    flags | (offFlags & ON_OFF_BITS)
  }

  /** A surface whose default flags carry a bit other than OFF and
      NODESCENDANTS loses it when it is first switched on. */
  lemma AppendedFlagsDropDefaults()
    ensures AppendedFlagsAsWritten(0x1, 0) == 0
    ensures AppendedFlagsIntended(0x1, 0) == 0x1
  {
  }

  /** The flags the comment beside the masking describes: the default flags
      with the on/off bits replaced by the requested ones. */
  function AppendedFlagsIntended(defaultFlags: bv32, offFlags: bv32): (r: bv32)
    ensures r & ON_OFF_BITS == offFlags & ON_OFF_BITS
    ensures r & !ON_OFF_BITS == defaultFlags & !ON_OFF_BITS
  {
    (defaultFlags & !ON_OFF_BITS) | (offFlags & ON_OFF_BITS)
  }

  /** G2_SetSurfaceOnOff on values: the last slot naming the surface gets the
      flags unmasked; otherwise a slot is appended for the first mesh surface of
      that name; a name the mesh lacks fails. */
  function SetSurfaceOnOffSpec(m: Mesh, slist: seq<SurfaceInfo>, name: string, offFlags: bv32): (r: (seq<SurfaceInfo>, bool))
    requires MeshWF(m) && RealSlotsValid(m, slist)
    ensures r.1 <==> FirstNamed(m, name) != -1
    ensures !r.1 ==> r.0 == slist
    ensures RealSlotsValid(m, r.0)
    ensures LastNamed(m, slist, name) != -1 ==>
              r.0 == slist[LastNamed(m, slist, name) := slist[LastNamed(m, slist, name)].(offFlags := offFlags)]
    ensures LastNamed(m, slist, name) == -1 && r.1 ==>
              r.0 == slist + [NewOverride(FirstNamed(m, name), AppendedFlagsAsWritten(m.defaultFlags[FirstNamed(m, name)], offFlags))]
  {
    var k := LastNamed(m, slist, name);
    if k != -1 then
      assert FirstNamed(m, name) != -1 by {
        var s := slist[k].surface;
        SameIgnoringCaseSym(m.names[s], name);
        assert SameIgnoringCase(name, m.names[s]);
      }
      (slist[k := slist[k].(offFlags := offFlags)], true)
    else
      var l := FirstNamed(m, name);
      if l != -1 then (slist + [NewOverride(l, AppendedFlagsAsWritten(m.defaultFlags[l], offFlags))], true)
      else (slist, false)
  }

  /** Reading the flags back by name returns what was set (masked on append). */
  lemma SetThenIsSurfaceOff(m: Mesh, slist: seq<SurfaceInfo>, name: string, offFlags: bv32)
    requires MeshWF(m) && RealSlotsValid(m, slist) && |m.names| <= GENERATED_SURFACE
    requires FirstNamed(m, name) != -1
    ensures var r := SetSurfaceOnOffSpec(m, slist, name, offFlags).0;
            SurfaceOffFlags(m, r, name) ==
              if LastNamed(m, slist, name) != -1 then offFlags
              else AppendedFlagsAsWritten(m.defaultFlags[FirstNamed(m, name)], offFlags)
  {
    var r := SetSurfaceOnOffSpec(m, slist, name, offFlags).0;
    var k := LastNamed(m, slist, name);
    if k != -1 {
      LastNamedSameNames(m, slist, r, name, |slist|);
    } else {
      var l := FirstNamed(m, name);
      SameIgnoringCaseSym(name, m.names[l]);
      assert IsRealSlot(r[|slist|]);
    }
  }

  /** Lists that name the same surfaces in the same slots agree on the last named slot. */
  lemma {:induction false} LastNamedSameNames(m: Mesh, a: seq<SurfaceInfo>, b: seq<SurfaceInfo>, name: string, i: nat)
    requires RealSlotsValid(m, a) && RealSlotsValid(m, b) && |a| == |b| && i <= |a|
    requires forall j :: 0 <= j < |a| ==> a[j].surface == b[j].surface
    ensures LastNamedBelow(m, a, name, i) == LastNamedBelow(m, b, name, i)
  {
    if i > 0 {
      LastNamedSameNames(m, a, b, name, i - 1);
    }
  }

  /** G2_SetSurfaceOnOff. The model handle is assumed to resolve. */
  method SetSurfaceOnOff(g: Ghoul2Info, surfaceName: string, offFlags: bv32) returns (ok: bool)
    requires MeshWF(g.model.mesh) && RealSlotsValid(g.model.mesh, g.mSlist)
    modifies g`mSlist
    ensures (g.mSlist, ok) == SetSurfaceOnOffSpec(g.model.mesh, old(g.mSlist), surfaceName, offFlags)
  {
    var m := g.model.mesh;
    var surfIndex := FindSurface(m, g.mSlist, surfaceName);
    if surfIndex != -1 {
      g.mSlist := g.mSlist[surfIndex := g.mSlist[surfIndex].(offFlags := offFlags)];
      return true;
    }
    var surfaceNum, flags := IsSurfaceLegal(m, surfaceName);
    if surfaceNum != -1 {
      flags := flags & LogicalNot(OFF | NODESCENDANTS);
      flags := flags | (offFlags & (OFF | NODESCENDANTS));
      g.mSlist := g.mSlist + [NewOverride(surfaceNum, flags)];
      return true;
    }
    return false;
  }

  /** Switching a surface by name is what the hierarchy walks then see for it,
      as long as no two slots name one surface and the mesh has fewer surfaces
      than the generated marker. */
  lemma SetSurfaceOnOffSeenByWalks(m: Mesh, slist: seq<SurfaceInfo>, name: string, offFlags: bv32)
    requires MeshWF(m) && RealSlotsValid(m, slist) && UniqueReal(slist)
    requires |m.names| <= GENERATED_SURFACE
    requires FirstNamed(m, name) != -1
    ensures var r := SetSurfaceOnOffSpec(m, slist, name, offFlags).0;
            var k := LastNamed(m, slist, name);
            var s := if k != -1 then slist[k].surface else FirstNamed(m, name);
            ValidSurface(m, s) && UniqueReal(r) && EffectiveFlags(m, r, s) == SurfaceOffFlags(m, r, name)
  {
    var r := SetSurfaceOnOffSpec(m, slist, name, offFlags).0;
    var k := LastNamed(m, slist, name);
    SetThenIsSurfaceOff(m, slist, name, offFlags);
    if k != -1 {
      var s := slist[k].surface;
      forall j | 0 <= j < |r| && j != k ensures r[j].surface != s {
        if IsRealSlot(r[j]) {
          assert r[j] == slist[j];
        }
      }
      assert r[k].surface == s;
      FirstOverrideIs(r, s, k);
    } else {
      var s := FirstNamed(m, name);
      forall j | 0 <= j < |slist| ensures slist[j].surface != s {
        if IsRealSlot(slist[j]) && slist[j].surface == s {
          assert false;
        }
      }
      assert r[|slist|].surface == s;
      FirstOverrideIs(r, s, |slist|);
    }
  }

  /** The first override of `s` is the one slot that names it. */
  lemma FirstOverrideIs(slist: seq<SurfaceInfo>, s: int, k: int)
    requires 0 <= k < |slist| && slist[k].surface == s
    requires forall j :: 0 <= j < |slist| && j != k ==> slist[j].surface != s
    ensures FirstOverride(slist, s) == Some(k)
  {
    var r := FirstOverride(slist, s);
    assert r.Some?;
  }

  // ---------------------------------------------------------------------
  // G2_RemoveSurface

  /** The override list with its trailing free slots cut off. */
  function TrimSlots(slist: seq<SurfaceInfo>): (r: seq<SurfaceInfo>)
    ensures r <= slist && SlotsTrimmed(r)
    ensures forall j :: |r| <= j < |slist| ==> slist[j].surface == FREE_SLOT
    decreases |slist|
  {
    if slist == [] || slist[|slist| - 1].surface != FREE_SLOT then slist
    else TrimSlots(slist[..|slist| - 1])
  }

  lemma {:induction false} TrimSlotsAppendFree(a: seq<SurfaceInfo>, f: seq<SurfaceInfo>)
    requires forall j :: 0 <= j < |f| ==> f[j].surface == FREE_SLOT
    ensures TrimSlots(a + f) == TrimSlots(a)
    decreases |f|
  {
    if f == [] {
      assert a + f == a;
    } else {
      var f' := f[..|f| - 1];
      assert (a + f)[..|a + f| - 1] == a + f';
      TrimSlotsAppendFree(a, f');
    }
  }

  lemma TrimSlotsTrimmed(slist: seq<SurfaceInfo>)
    requires SlotsTrimmed(slist)
    ensures TrimSlots(slist) == slist
  {
  }

  /** G2_RemoveSurface on values: the slot is freed and trailing free slots trimmed. */
  function RemoveSurfaceSpec(slist: seq<SurfaceInfo>, index: int): (r: seq<SurfaceInfo>)
    requires 0 <= index < |slist|
    ensures |r| <= |slist| && SlotsTrimmed(r)
    ensures forall j :: 0 <= j < |r| && j != index ==> r[j] == slist[j]
    ensures index < |r| ==> r[index] == slist[index].(surface := FREE_SLOT)
    ensures forall j :: |r| <= j < |slist| ==> j == index || slist[j].surface == FREE_SLOT
  {
    var freed := slist[index := slist[index].(surface := FREE_SLOT)];
    assert forall j :: 0 <= j < |slist| && j != index ==> freed[j] == slist[j];
    TrimSlots(freed)
  }

  /** Removing a slot keeps the list free of duplicate surfaces and trimmed,
      and no slot still names the removed surface unless another did before. */
  lemma RemoveSurfaceKeepsInvariants(m: Mesh, slist: seq<SurfaceInfo>, index: int)
    requires 0 <= index < |slist| && UniqueReal(slist) && RealSlotsValid(m, slist)
    ensures UniqueReal(RemoveSurfaceSpec(slist, index)) && RealSlotsValid(m, RemoveSurfaceSpec(slist, index))
    ensures IsRealSlot(slist[index]) ==>
              FirstOverride(RemoveSurfaceSpec(slist, index), slist[index].surface).None?
  {
    var r := RemoveSurfaceSpec(slist, index);
    if IsRealSlot(slist[index]) {
      var s := slist[index].surface;
      forall j | 0 <= j < |r| ensures r[j].surface != s {
        if j != index {
          assert r[j] == slist[j];
          if IsRealSlot(slist[j]) {
            if j < index { assert slist[j].surface != slist[index].surface; }
            else { assert slist[index].surface != slist[j].surface; }
          }
        }
      }
    }
  }

  /** G2_RemoveSurface: -1 is refused; any other index must name a slot. */
  method RemoveSurface(g: Ghoul2Info, index: int) returns (ok: bool)
    requires index == -1 || 0 <= index < |g.mSlist|
    modifies g`mSlist
    ensures ok <==> index != -1
    ensures g.mSlist == if index == -1 then old(g.mSlist) else RemoveSurfaceSpec(old(g.mSlist), index)
  {
    if index == -1 {
      return false;
    }
    g.mSlist := g.mSlist[index := g.mSlist[index].(surface := FREE_SLOT)];
    TrimTrailingSlots(g);
    return true;
  }

  /** The back-to-front scan of G2_RemoveSurface that cuts off trailing free slots. */
  method TrimTrailingSlots(g: Ghoul2Info)
    modifies g`mSlist
    ensures g.mSlist == TrimSlots(old(g.mSlist))
  {
    ghost var sl := g.mSlist;
    var newSize := |g.mSlist|;
    var i := |g.mSlist| - 1;
    while i > -1
      invariant -1 <= i < newSize <= |sl| && i == newSize - 1
      invariant g.mSlist == sl
      invariant TrimSlots(sl) == TrimSlots(sl[..newSize])
    {
      if g.mSlist[i].surface == FREE_SLOT {
        assert sl[..newSize][..i] == sl[..i];
        newSize := i;
      } else {
        break;
      }
      i := i - 1;
    }
    TrimSlotsTrimmed(sl[..newSize]);
    if newSize != |g.mSlist| {
      g.mSlist := g.mSlist[..newSize];
    }
  }

  // ---------------------------------------------------------------------
  // G2_AddSurface

  /** Reinterprets a 32-bit pattern in [0, 2^32) as a two's-complement int. */
  function AsInt32(u: int): (r: int)
    requires 0 <= u < 0x1_0000_0000
    ensures -0x8000_0000 <= r < 0x8000_0000 && r % 0x1_0000_0000 == u
  {
    if u >= 0x8000_0000 then u - 0x1_0000_0000 else u
  }

  /** The C int `((poly & 0xffff) << 16) | (surf & 0xffff)`; `x & 0xffff` of
      a two's-complement int is `x % 65536`. */
  function PackPolySurface(polyNumber: int, surfaceNumber: int): int
  {
    AsInt32((polyNumber % 0x1_0000) * 0x1_0000 + surfaceNumber % 0x1_0000)
  }

  /** `x & 0xffff` gives back the surface and `(x >> 16) & 0xffff` the polygon,
      each modulo 2^16. */
  lemma PackPolySurfaceDecodes(polyNumber: int, surfaceNumber: int)
    ensures PackPolySurface(polyNumber, surfaceNumber) % 0x1_0000 == surfaceNumber % 0x1_0000
    ensures (PackPolySurface(polyNumber, surfaceNumber) / 0x1_0000) % 0x1_0000 == polyNumber % 0x1_0000
  {
    var p := polyNumber % 0x1_0000;
    var s := surfaceNumber % 0x1_0000;
    var u := p * 0x1_0000 + s;
    var x := PackPolySurface(polyNumber, surfaceNumber);
    if u >= 0x8000_0000 {
      assert x == (p - 0x1_0000) * 0x1_0000 + s;
    } else {
      assert x == p * 0x1_0000 + s;
    }
  }

  /** A generated slot for polygon `polyNumber` of surface `surfaceNumber`. */
  function GeneratedSlot(surfaceNumber: int, polyNumber: int, bI: real, bJ: real, lod: int): SurfaceInfo
  {
    SurfaceInfo(GENERATED_SURFACE, GENERATED, PackPolySurface(polyNumber, surfaceNumber), bI, bJ, lod)
  }

  /** Index of the first free slot, or -1. */
  function FirstFreeSlotFrom(slist: seq<SurfaceInfo>, i: nat): (r: int)
    requires i <= |slist|
    ensures r == -1 || (i <= r < |slist| && slist[r].surface == FREE_SLOT)
    ensures r == -1 ==> forall j :: i <= j < |slist| ==> slist[j].surface != FREE_SLOT
    ensures r != -1 ==> forall j :: i <= j < r ==> slist[j].surface != FREE_SLOT
    decreases |slist| - i
  {
    if i == |slist| then -1
    else if slist[i].surface == FREE_SLOT then i
    else FirstFreeSlotFrom(slist, i + 1)
  }

  /** G2_AddSurface on values: the generated slot goes into the first free
      slot, else at the end; the LOD is first passed through the trace LOD rule. */
  function AddSurfaceSpec(slist: seq<SurfaceInfo>, lodBias: int, numLods: int,
                          surfaceNumber: int, polyNumber: int, bI: real, bJ: real, lod: int): (r: (seq<SurfaceInfo>, int))
    ensures 0 <= r.1 < |r.0| && (|r.0| == |slist| || |r.0| == |slist| + 1)
    ensures r.0[r.1] == GeneratedSlot(surfaceNumber, polyNumber, bI, bJ, DecideTraceLod(lodBias, lod, numLods))
    ensures forall j :: 0 <= j < |slist| && j != r.1 ==> r.0[j] == slist[j]
    ensures r.1 < |slist| ==> slist[r.1].surface == FREE_SLOT && forall j :: 0 <= j < r.1 ==> slist[j].surface != FREE_SLOT
    ensures r.1 < |slist| ==> |r.0| == |slist|
    ensures r.1 == |slist| ==> forall j :: 0 <= j < |slist| ==> slist[j].surface != FREE_SLOT
  {
    var slot := GeneratedSlot(surfaceNumber, polyNumber, bI, bJ, DecideTraceLod(lodBias, lod, numLods));
    var f := FirstFreeSlotFrom(slist, 0);
    if f != -1 then (slist[f := slot], f) else (slist + [slot], |slist|)
  }

  /** The surface a slot keeps alive: for a generated slot the surface its
      polygon lies on, otherwise the slot's own surface. */
  function RefSurface(si: SurfaceInfo): int
  {
    if si.offFlags & GENERATED != 0 then si.genPolySurfaceIndex % 0x1_0000 else si.surface
  }

  /** Adding a generated surface keeps the slot invariants, and the new slot
      refers back to the surface it was made on. */
  lemma AddSurfaceKeepsInvariants(m: Mesh, slist: seq<SurfaceInfo>, lodBias: int, numLods: int,
                                  surfaceNumber: int, polyNumber: int, bI: real, bJ: real, lod: int)
    requires UniqueReal(slist) && RealSlotsValid(m, slist) && SlotsTrimmed(slist)
    ensures var r := AddSurfaceSpec(slist, lodBias, numLods, surfaceNumber, polyNumber, bI, bJ, lod);
            UniqueReal(r.0) && RealSlotsValid(m, r.0) && SlotsTrimmed(r.0) &&
            RefSurface(r.0[r.1]) == surfaceNumber % 0x1_0000
  {
    PackPolySurfaceDecodes(polyNumber, surfaceNumber);
    var r := AddSurfaceSpec(slist, lodBias, numLods, surfaceNumber, polyNumber, bI, bJ, lod);
    assert !IsRealSlot(r.0[r.1]);
    assert GENERATED & GENERATED != 0;
  }

  /** G2_AddSurface. */
  method AddSurface(g: Ghoul2Info, surfaceNumber: int, polyNumber: int, barycentricI: real, barycentricJ: real, lod: int)
    returns (r: int)
    modifies g`mSlist
    ensures (g.mSlist, r) == AddSurfaceSpec(old(g.mSlist), g.mLodBias, |g.model.lods|,
                                            surfaceNumber, polyNumber, barycentricI, barycentricJ, lod)
  {
    var traceLod := DecideTraceLod(g.mLodBias, lod, |g.model.lods|);
    var slot := GeneratedSlot(surfaceNumber, polyNumber, barycentricI, barycentricJ, traceLod);
    for i := 0 to |g.mSlist|
      invariant g.mSlist == old(g.mSlist)
      invariant FirstFreeSlotFrom(g.mSlist, 0) == FirstFreeSlotFrom(g.mSlist, i)
    {
      if g.mSlist[i].surface == FREE_SLOT {
        g.mSlist := g.mSlist[i := slot];
        return i;
      }
    }
    g.mSlist := g.mSlist + [slot];
    return |g.mSlist| - 1;
  }

  // ---------------------------------------------------------------------
  // G2_FindRecursiveSurface

  /** G2_FindRecursiveSurface: sets the entry of every surface the active
      walk from `surfaceNum` marks, and no other. */
  method FindRecursiveSurface(m: Mesh, surfaceNum: int, rootList: seq<SurfaceInfo>, activeSurfaces: array<bool>)
    requires MeshWF(m) && ValidSurface(m, surfaceNum) && activeSurfaces.Length == |m.names|
    modifies activeSurfaces
    ensures forall t :: 0 <= t < activeSurfaces.Length ==>
              activeSurfaces[t] == (old(activeSurfaces[t]) || t in Visit(m, rootList, ActiveRule, surfaceNum))
    decreases m.rank[surfaceNum]
  {
    var surfOverride := FindOverrideSurface(surfaceNum, rootList);
    var offFlags := m.defaultFlags[surfaceNum];
    if surfOverride.Some? {
      offFlags := rootList[surfOverride.value].offFlags;
    }
    assert offFlags == EffectiveFlags(m, rootList, surfaceNum);
    if offFlags & OFF == 0 {
      activeSurfaces[surfaceNum] := true;
    } else if offFlags & NODESCENDANTS != 0 {
      return;
    }
    var kids := m.children[surfaceNum];
    ghost var own: set<int> := if Marks(ActiveRule, offFlags) then {surfaceNum} else {};
    for i := 0 to |kids|
      invariant forall t :: 0 <= t < activeSurfaces.Length ==>
                  activeSurfaces[t] == (old(activeSurfaces[t]) || t in own ||
                                        t in VisitAll(m, rootList, ActiveRule, kids[..i], m.rank[surfaceNum]))
    {
      assert kids[..i + 1][..i] == kids[..i];
      FindRecursiveSurface(m, kids[i], rootList, activeSurfaces);
    }
    assert kids[..|kids|] == kids;
  }

  // ---------------------------------------------------------------------
  // G2_RemoveRedundantGeneratedSurfaces

  /** The surface a live slot refers to has an entry in the active table. */
  predicate SlotRefInRange(si: SurfaceInfo, numSurfaces: int)
  {
    si.surface != FREE_SLOT ==> 0 <= RefSurface(si) < numSurfaces
  }

  predicate SlotRefsInRange(slist: seq<SurfaceInfo>, numSurfaces: int)
  {
    forall j :: 0 <= j < |slist| ==> SlotRefInRange(slist[j], numSurfaces)
  }

  /** A live slot whose surface is no longer active. */
  predicate StaleSlot(si: SurfaceInfo, activeSurfaces: seq<bool>)
    requires SlotRefInRange(si, |activeSurfaces|)
  {
    si.surface != FREE_SLOT && !activeSurfaces[RefSurface(si)]
  }

  predicate AnyStaleSlot(slist: seq<SurfaceInfo>, activeSurfaces: seq<bool>, n: int)
    requires SlotRefsInRange(slist, |activeSurfaces|)
  {
    exists j :: 0 <= j < n && j < |slist| && StaleSlot(slist[j], activeSurfaces)
  }

  /** The list with the stale slots among the first `n` freed. */
  function MarkStaleSlots(slist: seq<SurfaceInfo>, activeSurfaces: seq<bool>, n: int): (r: seq<SurfaceInfo>)
    requires SlotRefsInRange(slist, |activeSurfaces|)
    ensures |r| == |slist|
    ensures forall j :: 0 <= j < |slist| ==>
              r[j] == if j < n && StaleSlot(slist[j], activeSurfaces) then slist[j].(surface := FREE_SLOT) else slist[j]
  {
    seq(|slist|, j requires 0 <= j < |slist| =>
      if j < n && StaleSlot(slist[j], activeSurfaces) then slist[j].(surface := FREE_SLOT) else slist[j])
  }

  /** The list after G2_RemoveRedundantGeneratedSurfaces has looked at `n`
      slots: untouched while nothing was stale, else stale slots freed and
      trailing free slots trimmed. */
  function PruneSlots(slist: seq<SurfaceInfo>, activeSurfaces: seq<bool>, n: int): (r: seq<SurfaceInfo>)
    requires SlotRefsInRange(slist, |activeSurfaces|)
    ensures |r| <= |slist|
  {
    if AnyStaleSlot(slist, activeSurfaces, n) then TrimSlots(MarkStaleSlots(slist, activeSurfaces, n)) else slist
  }

  /** The slot the loop looks at has not been touched yet. */
  lemma PruneSlotsAt(sl: seq<SurfaceInfo>, aS: seq<bool>, i: int)
    requires SlotRefsInRange(sl, |aS|)
    requires 0 <= i < |PruneSlots(sl, aS, i)|
    ensures PruneSlots(sl, aS, i)[i] == sl[i]
  {
    if AnyStaleSlot(sl, aS, i) {
      assert TrimSlots(MarkStaleSlots(sl, aS, i))[i] == MarkStaleSlots(sl, aS, i)[i];
    }
  }

  /** Freeing stale slot `i` of the trimmed, partly marked list is marking one more slot. */
  lemma PruneSlotsMarkOne(sl: seq<SurfaceInfo>, aS: seq<bool>, i: int)
    requires SlotRefsInRange(sl, |aS|)
    requires 0 <= i < |TrimSlots(MarkStaleSlots(sl, aS, i))|
    requires StaleSlot(sl[i], aS)
    ensures RemoveSurfaceSpec(TrimSlots(MarkStaleSlots(sl, aS, i)), i) == TrimSlots(MarkStaleSlots(sl, aS, i + 1))
  {
    var s := MarkStaleSlots(sl, aS, i);
    var cur := TrimSlots(s);
    var tail := s[|cur|..];
    assert cur[i] == s[i] == sl[i];
    assert s == cur + tail;
    assert MarkStaleSlots(sl, aS, i + 1) == cur[i := sl[i].(surface := FREE_SLOT)] + tail;
    TrimSlotsAppendFree(cur[i := sl[i].(surface := FREE_SLOT)], tail);
  }

  /** One step of the loop: a stale slot is freed, any other left alone. */
  lemma PruneSlotsLoopStep(sl: seq<SurfaceInfo>, aS: seq<bool>, i: int)
    requires SlotRefsInRange(sl, |aS|)
    requires 0 <= i < |PruneSlots(sl, aS, i)|
    ensures var cur := PruneSlots(sl, aS, i);
            cur[i] == sl[i] &&
            PruneSlots(sl, aS, i + 1) ==
              if StaleSlot(sl[i], aS) then RemoveSurfaceSpec(cur, i) else cur
  {
    PruneSlotsAt(sl, aS, i);
    var before := AnyStaleSlot(sl, aS, i);
    if StaleSlot(sl[i], aS) {
      assert AnyStaleSlot(sl, aS, i + 1);
      if before {
        PruneSlotsMarkOne(sl, aS, i);
      } else {
        var s' := MarkStaleSlots(sl, aS, i + 1);
        forall j | 0 <= j < |sl| && j < i ensures s'[j] == sl[j] {
          assert !StaleSlot(sl[j], aS);
        }
        assert s' == sl[i := sl[i].(surface := FREE_SLOT)];
      }
    } else {
      assert AnyStaleSlot(sl, aS, i + 1) == before;
      assert MarkStaleSlots(sl, aS, i + 1) == MarkStaleSlots(sl, aS, i);
    }
  }

  lemma PruneSlotsDone(sl: seq<SurfaceInfo>, aS: seq<bool>, i: int)
    requires SlotRefsInRange(sl, |aS|) && 0 <= i <= |sl|
    requires |PruneSlots(sl, aS, i)| <= i
    ensures PruneSlots(sl, aS, i) == PruneSlots(sl, aS, |sl|)
  {
    if AnyStaleSlot(sl, aS, i) {
      assert AnyStaleSlot(sl, aS, |sl|);
      var s := MarkStaleSlots(sl, aS, i);
      var s' := MarkStaleSlots(sl, aS, |sl|);
      forall j | 0 <= j < |sl| ensures s'[j] == s[j] {
        if j >= i {
          assert s[j].surface == FREE_SLOT;
        }
      }
      assert s == s';
    }
  }

  /** G2_RemoveRedundantGeneratedSurfaces: frees every override or generated
      slot whose surface is not in the active table. `activeSurfaces` is the
      memory the engine reads through its table pointer, which a packed
      surface number of a generated slot may reach past the table's end. */
  method RemoveRedundantGeneratedSurfaces(g: Ghoul2Info, activeSurfaces: seq<bool>)
    requires SlotRefsInRange(g.mSlist, |activeSurfaces|)
    modifies g`mSlist
    ensures g.mSlist == PruneSlots(old(g.mSlist), activeSurfaces, |old(g.mSlist)|)
  {
    ghost var orig := g.mSlist;
    var i := 0;
    while i < |g.mSlist|
      invariant 0 <= i <= |orig|
      invariant g.mSlist == PruneSlots(orig, activeSurfaces, i)
      decreases |g.mSlist| - i
    {
      RemoveIfStale(g, activeSurfaces, orig, i);
      i := i + 1;
    }
    PruneSlotsDone(orig, activeSurfaces, i);
  }

  /** One pass of the loop of G2_RemoveRedundantGeneratedSurfaces: slot `i`
      is removed exactly when it is stale. */
  method RemoveIfStale(g: Ghoul2Info, activeSurfaces: seq<bool>, ghost orig: seq<SurfaceInfo>, i: int)
    requires SlotRefsInRange(orig, |activeSurfaces|)
    requires 0 <= i < |g.mSlist| && g.mSlist == PruneSlots(orig, activeSurfaces, i)
    modifies g`mSlist
    ensures g.mSlist == if StaleSlot(orig[i], activeSurfaces) then RemoveSurfaceSpec(old(g.mSlist), i)
                        else old(g.mSlist)
    ensures g.mSlist == PruneSlots(orig, activeSurfaces, i + 1)
  {
    PruneSlotsLoopStep(orig, activeSurfaces, i);
    var si := g.mSlist[i];
    if si.surface != FREE_SLOT {
      if si.offFlags & GENERATED != 0 {
        if !activeSurfaces[si.genPolySurfaceIndex % 0x1_0000] {
          var _ := RemoveSurface(g, i);
        }
      } else {
        if !activeSurfaces[si.surface] {
          var _ := RemoveSurface(g, i);
        }
      }
    }
  }

  /** What survives: exactly the live slots whose surface is active, each at
      its old index; with nothing stale the list is returned as it was. */
  lemma RemoveRedundantGeneratedSurfacesResult(sl: seq<SurfaceInfo>, aS: seq<bool>, j: int)
    requires SlotRefsInRange(sl, |aS|) && 0 <= j < |sl|
    ensures var r := PruneSlots(sl, aS, |sl|);
            (sl[j].surface != FREE_SLOT && !StaleSlot(sl[j], aS) ==> j < |r| && r[j] == sl[j]) &&
            (j < |r| && r[j].surface != FREE_SLOT ==> r[j] == sl[j] && !StaleSlot(sl[j], aS)) &&
            (StaleSlot(sl[j], aS) ==> j >= |r| || r[j].surface == FREE_SLOT)
    ensures !AnyStaleSlot(sl, aS, |sl|) ==> PruneSlots(sl, aS, |sl|) == sl
  {
    if AnyStaleSlot(sl, aS, |sl|) {
      var s := MarkStaleSlots(sl, aS, |sl|);
      var r := TrimSlots(s);
      if sl[j].surface != FREE_SLOT && !StaleSlot(sl[j], aS) {
        assert s[j] == sl[j] && s[j].surface != FREE_SLOT;
      }
      if j < |r| {
        assert r[j] == s[j];
      }
    }
  }

  // ---------------------------------------------------------------------
  // G2_SetRootSurface

  /** The model a bolt link hangs from: bits 10..19 of the link. */
  function BoltLinkModel(link: nat): (r: nat)
    ensures r < 1024
  {
    (link / 1024) % 1024
  }

  /** The bolt a link hangs from: bits 0..9 of the link. */
  function BoltLinkBolt(link: nat): (r: nat)
    ensures r < 1024
  {
    link % 1024
  }

  /** Packing a (model, bolt) pair the way the engine does and decoding it again. */
  lemma BoltLinkRoundTrip(modelIndex: nat, boltIndex: nat)
    requires modelIndex < 1024 && boltIndex < 1024
    ensures BoltLinkModel(modelIndex * 1024 + boltIndex) == modelIndex
    ensures BoltLinkBolt(modelIndex * 1024 + boltIndex) == boltIndex
  {
  }

  /** Each instance's link is -1 or names an instance of the vector. */
  predicate LinksValid(links: seq<int>, count: int)
  {
    forall j :: 0 <= j < |links| ==> links[j] == -1 || (links[j] >= 0 && BoltLinkModel(links[j]) < count)
  }

  /** Instance `j` hangs from a bolt that is gone, given that the instances in
      `removed` have already been emptied. */
  predicate Dangling(links: seq<int>, bolts: seq<seq<BoltInfo>>, removed: set<int>, j: int)
    requires |links| == |bolts| && LinksValid(links, |bolts|) && 0 <= j < |links|
  {
    links[j] != -1 &&
    var bm := BoltLinkModel(links[j]);
    var bn := BoltLinkBolt(links[j]);
    var list := if bm in removed then [] else bolts[bm];
    |list| <= bn || IsFree(list[bn])
  }

  /** The instances among the first `n` that the cascade of G2_SetRootSurface removes. */
  function CascadeRemoved(links: seq<int>, bolts: seq<seq<BoltInfo>>, n: int): (r: set<int>)
    requires |links| == |bolts| && LinksValid(links, |bolts|) && 0 <= n <= |links|
    ensures forall j :: j in r ==> 0 <= j < n
    decreases n
  {
    if n == 0 then {}
    else
      var before := CascadeRemoved(links, bolts, n - 1);
      if Dangling(links, bolts, before, n - 1) then before + {n - 1} else before
  }

  /** An instance is removed exactly when, at its turn, it hangs from a
      missing or free bolt. */
  lemma {:induction false} CascadeRemovedIff(links: seq<int>, bolts: seq<seq<BoltInfo>>, n: int, j: int)
    requires |links| == |bolts| && LinksValid(links, |bolts|) && 0 <= j < n <= |links|
    ensures j in CascadeRemoved(links, bolts, n) <==> Dangling(links, bolts, CascadeRemoved(links, bolts, j), j)
    decreases n
  {
    if j < n - 1 {
      CascadeRemovedIff(links, bolts, n - 1, j);
    }
  }

  /** When no instance hangs from a missing or free bolt, nothing is removed. */
  lemma {:induction false} CascadeNothingDangling(links: seq<int>, bolts: seq<seq<BoltInfo>>, n: int)
    requires |links| == |bolts| && LinksValid(links, |bolts|) && 0 <= n <= |links|
    requires forall j :: 0 <= j < |links| ==> !Dangling(links, bolts, {}, j)
    ensures CascadeRemoved(links, bolts, n) == {}
    decreases n
  {
    if n > 0 {
      CascadeNothingDangling(links, bolts, n - 1);
    }
  }

  /** The state G2API_RemoveGhoul2Model leaves an instance in. */
  predicate IsRemoved(g: Ghoul2Info)
    reads g
  {
    g.mModelindex == -1 && g.mSlist == [] && g.mBltlist == [] && g.mBlist == []
  }

  /** G2API_RemoveGhoul2Model on one slot of the vector: the instance is
      marked unused and its lists cleared. */
  method RemoveGhoul2Model(g: Ghoul2Info)
    modifies g`mModelindex, g`mSlist, g`mBltlist, g`mBlist
    ensures IsRemoved(g)
  {
    g.mModelindex := -1;
    g.mSlist := [];
    g.mBltlist := [];
    g.mBlist := [];
  }

  function Links(ghoul2: seq<Ghoul2Info>): (r: seq<int>)
    reads set i | 0 <= i < |ghoul2| :: ghoul2[i]
    ensures |r| == |ghoul2| && forall j :: 0 <= j < |ghoul2| ==> r[j] == ghoul2[j].mModelBoltLink
  {
    seq(|ghoul2|, j reads ghoul2 requires 0 <= j < |ghoul2| => ghoul2[j].mModelBoltLink)
  }

  function Bolts(ghoul2: seq<Ghoul2Info>): (r: seq<seq<BoltInfo>>)
    reads set i | 0 <= i < |ghoul2| :: ghoul2[i]
    ensures |r| == |ghoul2| && forall j :: 0 <= j < |ghoul2| ==> r[j] == ghoul2[j].mBltlist
  {
    seq(|ghoul2|, j reads ghoul2 requires 0 <= j < |ghoul2| => ghoul2[j].mBltlist)
  }

  /** The last loop of G2_SetRootSurface: every instance hanging from a bolt
      that no longer exists is removed, in vector order. */
  method RemoveDanglingModels(ghoul2: seq<Ghoul2Info>)
    requires Distinct(ghoul2) && LinksValid(Links(ghoul2), |ghoul2|)
    modifies ghoul2`mModelindex, ghoul2`mSlist, ghoul2`mBltlist, ghoul2`mBlist
    ensures forall j :: 0 <= j < |ghoul2| ==>
              ghoul2[j].mModelBoltLink == old(ghoul2[j].mModelBoltLink) && ghoul2[j].mSurfaceRoot == old(ghoul2[j].mSurfaceRoot)
    ensures forall j :: 0 <= j < |ghoul2| ==>
              if j in CascadeRemoved(old(Links(ghoul2)), old(Bolts(ghoul2)), |ghoul2|) then IsRemoved(ghoul2[j])
              else Untouched(ghoul2[j], old(ghoul2[j].mModelindex), old(ghoul2[j].mSlist), old(ghoul2[j].mBltlist), old(ghoul2[j].mBlist))
  {
    ghost var links := Links(ghoul2);
    ghost var bolts := Bolts(ghoul2);
    ghost var roots := seq(|ghoul2|, j requires 0 <= j < |ghoul2| reads ghoul2 => ghoul2[j].mSurfaceRoot);
    ghost var indices := seq(|ghoul2|, j requires 0 <= j < |ghoul2| reads ghoul2 => ghoul2[j].mModelindex);
    ghost var slists := seq(|ghoul2|, j requires 0 <= j < |ghoul2| reads ghoul2 => ghoul2[j].mSlist);
    ghost var blists := seq(|ghoul2|, j requires 0 <= j < |ghoul2| reads ghoul2 => ghoul2[j].mBlist);
    for i := 0 to |ghoul2|
      invariant forall j :: 0 <= j < |ghoul2| ==>
                  ghoul2[j].mModelBoltLink == links[j] && ghoul2[j].mSurfaceRoot == roots[j]
      invariant forall j :: 0 <= j < |ghoul2| ==>
                  if j in CascadeRemoved(links, bolts, i) then IsRemoved(ghoul2[j])
                  else Untouched(ghoul2[j], indices[j], slists[j], bolts[j], blists[j])
    {
      ghost var removed := CascadeRemoved(links, bolts, i);
      var dropped := DropIfDangling(ghoul2, i, ghoul2[i], links, bolts, removed);
      CascadeStep(links, bolts, i);
    }
  }

  /** One more instance of the cascade. */
  lemma CascadeStep(links: seq<int>, bolts: seq<seq<BoltInfo>>, i: int)
    requires |links| == |bolts| && LinksValid(links, |bolts|) && 0 <= i < |links|
    ensures CascadeRemoved(links, bolts, i + 1) ==
            if Dangling(links, bolts, CascadeRemoved(links, bolts, i), i)
            then CascadeRemoved(links, bolts, i) + {i} else CascadeRemoved(links, bolts, i)
  {
  }

  /** One turn of the cascade loop: instance `i` is removed when the bolt it
      hangs from is missing or free, the instances in `removed` having been
      emptied already. */
  method DropIfDangling(ghoul2: seq<Ghoul2Info>, i: int, g: Ghoul2Info, ghost links: seq<int>, ghost bolts: seq<seq<BoltInfo>>,
                        ghost removed: set<int>) returns (dropped: bool)
    requires 0 <= i < |ghoul2| && |links| == |ghoul2| && |bolts| == |ghoul2| && LinksValid(links, |ghoul2|)
    requires g == ghoul2[i] && g.mModelBoltLink == links[i]
    requires forall j :: 0 <= j < |ghoul2| ==> ghoul2[j].mBltlist == if j in removed then [] else bolts[j]
    modifies g`mModelindex, g`mSlist, g`mBltlist, g`mBlist
    ensures dropped == Dangling(links, bolts, removed, i)
    ensures dropped ==> IsRemoved(g)
    ensures !dropped ==> unchanged(g)
    ensures forall j :: 0 <= j < |ghoul2| ==>
              ghoul2[j].mModelBoltLink == old(ghoul2[j].mModelBoltLink) && ghoul2[j].mSurfaceRoot == old(ghoul2[j].mSurfaceRoot)
  {
    var link := g.mModelBoltLink;
    dropped := false;
    if link != -1 {
      var boltMod := BoltLinkModel(link);
      var boltNum := BoltLinkBolt(link);
      var list := ghoul2[boltMod].mBltlist;
      if |list| <= boltNum || (list[boltNum].boneNumber == -1 && list[boltNum].surfaceNumber == -1) {
        RemoveGhoul2Model(g);
        dropped := true;
      }
    }
  }

  /** An instance still holds the given lists and model index. */
  predicate Untouched(g: Ghoul2Info, modelIndex: int, slist: seq<SurfaceInfo>, bltlist: seq<BoltInfo>, blist: seq<BoneInfo>)
    reads g
  {
    g.mModelindex == modelIndex && g.mSlist == slist && g.mBltlist == bltlist && g.mBlist == blist
  }

  /** Which surfaces the active walk from `root` reaches, as the table
      G2_FindRecursiveSurface fills in. */
  ghost function ActiveTable(m: Mesh, rootList: seq<SurfaceInfo>, root: int): (r: seq<bool>)
    requires MeshWF(m) && ValidSurface(m, root)
    ensures |r| == |m.names|
    ensures forall t :: 0 <= t < |r| ==> (r[t] <==> t in Visit(m, rootList, ActiveRule, root))
  {
    seq(|m.names|, t => t in Visit(m, rootList, ActiveRule, root))
  }

  /** The middle of G2_SetRootSurface: the override and bolt lists of `g`
      are pruned to what the active walk from `root` reaches.  The active
      table has one entry per surface of the mesh; a generated slot or bolt
      may refer to a surface number past its end, and the engine then reads
      whatever memory follows the table, which `beyond` stands for. */
  method PruneBelowRoot(g: Ghoul2Info, root: int, activeBones: seq<bool>, beyond: seq<bool>)
    requires MeshWF(g.model.mesh) && ValidSurface(g.model.mesh, root)
    requires SlotRefsInRange(g.mSlist, |g.model.mesh.names| + |beyond|)
    requires RefsInRange(g.mBltlist, |g.model.mesh.names| + |beyond|, |activeBones|)
    modifies g`mSlist, g`mBltlist
    ensures var act := ActiveTable(g.model.mesh, old(g.mSlist), root) + beyond;
            g.mSlist == PruneSlots(old(g.mSlist), act, |old(g.mSlist)|) &&
            g.mBltlist == PruneStale(old(g.mBltlist), g.mSlist, act, activeBones, |old(g.mBltlist)|)
  {
    var m := g.model.mesh;
    var activeSurfaces := new bool[|m.names|](_ => false);
    FindRecursiveSurface(m, root, g.mSlist, activeSurfaces);
    assert activeSurfaces[..] == ActiveTable(m, old(g.mSlist), root);
    var table := activeSurfaces[..] + beyond;
    RemoveRedundantGeneratedSurfaces(g, table);
    RemoveRedundantBolts(g, table, activeBones);
  }

  /** G2_SetRootSurface once the new root `root` differs from the old one. */
  method Reroot(ghoul2: seq<Ghoul2Info>, modelIndex: int, root: int, activeBones: seq<bool>, beyond: seq<bool>)
    requires 0 <= modelIndex < |ghoul2| && Distinct(ghoul2)
    requires MeshWF(ghoul2[modelIndex].model.mesh) && ValidSurface(ghoul2[modelIndex].model.mesh, root)
    requires SlotRefsInRange(ghoul2[modelIndex].mSlist, |ghoul2[modelIndex].model.mesh.names| + |beyond|)
    requires RefsInRange(ghoul2[modelIndex].mBltlist, |ghoul2[modelIndex].model.mesh.names| + |beyond|, |activeBones|)
    requires LinksValid(Links(ghoul2), |ghoul2|)
    modifies ghoul2`mSurfaceRoot, ghoul2`mModelindex, ghoul2`mSlist, ghoul2`mBltlist, ghoul2`mBlist
    ensures ghoul2[modelIndex].mSurfaceRoot == root
    ensures forall j :: 0 <= j < |ghoul2| && j != modelIndex ==> ghoul2[j].mSurfaceRoot == old(ghoul2[j].mSurfaceRoot)
    ensures forall j :: 0 <= j < |ghoul2| ==> ghoul2[j].mModelBoltLink == old(ghoul2[j].mModelBoltLink)
    ensures var m := ghoul2[modelIndex].model.mesh;
            var act := ActiveTable(m, old(ghoul2[modelIndex].mSlist), root) + beyond;
            var slist := PruneSlots(old(ghoul2[modelIndex].mSlist), act, |old(ghoul2[modelIndex].mSlist)|);
            var bolts := old(Bolts(ghoul2))[modelIndex :=
                           PruneStale(old(ghoul2[modelIndex].mBltlist), slist, act, activeBones,
                                      |old(ghoul2[modelIndex].mBltlist)|)];
            forall j :: 0 <= j < |ghoul2| ==>
              if j in CascadeRemoved(old(Links(ghoul2)), bolts, |ghoul2|) then IsRemoved(ghoul2[j])
              else Untouched(ghoul2[j], old(ghoul2[j].mModelindex),
                             if j == modelIndex then slist else old(ghoul2[j].mSlist),
                             bolts[j], if j == modelIndex then ghoul2[j].mBlist else old(ghoul2[j].mBlist))
  {
    var g := ghoul2[modelIndex];
    g.mSurfaceRoot := root;
    PruneBelowRoot(g, root, activeBones, beyond);
    assert Links(ghoul2) == old(Links(ghoul2));
    assert Bolts(ghoul2) == old(Bolts(ghoul2))[modelIndex := g.mBltlist];
    RemoveDanglingModels(ghoul2);
  }

  /**
   * G2_SetRootSurface: makes the surface called `surfaceName` the root of
   * instance `modelIndex`, then prunes its override list to the surfaces the
   * active walk from the new root reaches, its bolt list to the surviving
   * surfaces and the bones in `activeBones`, and removes every instance
   * hanging from a bolt that is gone. `activeBones` stands for the used-bone
   * list the engine builds from the new root, and `beyond` for the memory
   * after the active-surface table (see PruneBelowRoot).
   */
  method SetRootSurface(ghoul2: seq<Ghoul2Info>, modelIndex: int, surfaceName: string, activeBones: seq<bool>,
                        beyond: seq<bool>)
    returns (ok: bool)
    requires 0 <= modelIndex < |ghoul2| && Distinct(ghoul2)
    requires MeshWF(ghoul2[modelIndex].model.mesh)
    requires SlotRefsInRange(ghoul2[modelIndex].mSlist, |ghoul2[modelIndex].model.mesh.names| + |beyond|)
    requires RefsInRange(ghoul2[modelIndex].mBltlist, |ghoul2[modelIndex].model.mesh.names| + |beyond|, |activeBones|)
    requires LinksValid(Links(ghoul2), |ghoul2|)
    modifies ghoul2`mSurfaceRoot, ghoul2`mModelindex, ghoul2`mSlist, ghoul2`mBltlist, ghoul2`mBlist
    ensures ok <==> FirstNamed(ghoul2[modelIndex].model.mesh, surfaceName) != -1
    ensures !ok || old(ghoul2[modelIndex].mSurfaceRoot) == FirstNamed(ghoul2[modelIndex].model.mesh, surfaceName) ==>
              forall j :: 0 <= j < |ghoul2| ==> unchanged(ghoul2[j])
    ensures ok ==> ghoul2[modelIndex].mSurfaceRoot == FirstNamed(ghoul2[modelIndex].model.mesh, surfaceName)
    ensures forall j :: 0 <= j < |ghoul2| && j != modelIndex ==> ghoul2[j].mSurfaceRoot == old(ghoul2[j].mSurfaceRoot)
    ensures forall j :: 0 <= j < |ghoul2| ==> ghoul2[j].mModelBoltLink == old(ghoul2[j].mModelBoltLink)
    ensures ok && old(ghoul2[modelIndex].mSurfaceRoot) != FirstNamed(ghoul2[modelIndex].model.mesh, surfaceName) ==>
              var m := ghoul2[modelIndex].model.mesh;
              var act := ActiveTable(m, old(ghoul2[modelIndex].mSlist), FirstNamed(m, surfaceName)) + beyond;
              var slist := PruneSlots(old(ghoul2[modelIndex].mSlist), act, |old(ghoul2[modelIndex].mSlist)|);
              var bolts := old(Bolts(ghoul2))[modelIndex :=
                             PruneStale(old(ghoul2[modelIndex].mBltlist), slist, act, activeBones,
                                        |old(ghoul2[modelIndex].mBltlist)|)];
              forall j :: 0 <= j < |ghoul2| ==>
                if j in CascadeRemoved(old(Links(ghoul2)), bolts, |ghoul2|) then IsRemoved(ghoul2[j])
                else Untouched(ghoul2[j], old(ghoul2[j].mModelindex),
                               if j == modelIndex then slist else old(ghoul2[j].mSlist),
                               bolts[j], if j == modelIndex then ghoul2[j].mBlist else old(ghoul2[j].mBlist))
  {
    var g := ghoul2[modelIndex];
    var m := g.model.mesh;
    var surf, flags := IsSurfaceLegal(m, surfaceName);
    if surf == -1 {
      return false;
    }
    if g.mSurfaceRoot == surf {
      return true;
    }
    Reroot(ghoul2, modelIndex, surf, activeBones, beyond);
    return true;
  }
}
