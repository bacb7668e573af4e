// The bolt list of a Ghoul2 instance (G2_bolts.cpp): reference-counted
// attachment points on a surface or a bone, with free slots reused and
// trailing free slots trimmed.
module G2Bolts {
  import opened Text
  import opened Ghoul2Types
  import opened G2Lookup

  /** A slot with neither a bone nor a surface is free for reuse. */
  predicate IsFree(b: BoltInfo) { b.boneNumber == -1 && b.surfaceNumber == -1 }

  /** What one of the list scans looks for. */
  datatype Key =
    | SurfaceKey(surface: int, typeMask: bv32)  // a surface bolt whose type has every bit of the mask
    | BoneKey(bone: int)                        // a bone bolt
    | FreeKey                                   // a free slot

  /** `(t & mask) == mask`: every bit of the mask is set in `t`. */
  predicate HasAllBits(t: bv32, mask: bv32) { t & mask == mask }

  predicate Matches(b: BoltInfo, k: Key)
  {
    match k
    case SurfaceKey(s, mask) => b.surfaceNumber != -1 && b.surfaceNumber == s && HasAllBits(b.surfaceType, mask)
    case BoneKey(x) => b.boneNumber != -1 && b.boneNumber == x
    case FreeKey => IsFree(b)
  }

  /** Index of the first slot at or after `i` matching `k`, or -1. */
  function FirstMatchFrom(bl: seq<BoltInfo>, k: Key, i: nat): (r: int)
    requires i <= |bl|
    ensures r == -1 || (i <= r < |bl| && Matches(bl[r], k))
    ensures r == -1 ==> forall j :: i <= j < |bl| ==> !Matches(bl[j], k)
    ensures r != -1 ==> forall j :: i <= j < r ==> !Matches(bl[j], k)
    decreases |bl| - i
  {
    if i == |bl| then -1
    else if Matches(bl[i], k) then i
    else FirstMatchFrom(bl, k, i + 1)
  }

  function FirstMatch(bl: seq<BoltInfo>, k: Key): int
  {
    FirstMatchFrom(bl, k, 0)
  }

  /** A slot index is the first match exactly when it matches and none before it does. */
  lemma FirstMatchUnique(bl: seq<BoltInfo>, k: Key, r: int)
    requires 0 <= r < |bl| && Matches(bl[r], k)
    requires forall j :: 0 <= j < r ==> !Matches(bl[j], k)
    ensures FirstMatch(bl, k) == r
  {
  }

  // ---------------------------------------------------------------------
  // G2_Find_Bolt_Bone_Num / G2_Find_Bolt_Surface_Num

  /** G2_Find_Bolt_Bone_Num: the first in-use slot bolted to bone `boneNum`, or -1. */
  method FindBoltBoneNum(bltlist: seq<BoltInfo>, boneNum: int) returns (r: int)
    ensures r == FirstMatch(bltlist, BoneKey(boneNum))
    ensures r != -1 ==> 0 <= r < |bltlist| && boneNum != -1 && bltlist[r].boneNumber == boneNum
    ensures r == -1 <==> forall j :: 0 <= j < |bltlist| ==> bltlist[j].boneNumber == -1 || bltlist[j].boneNumber != boneNum
  {
    for i := 0 to |bltlist|
      invariant FirstMatch(bltlist, BoneKey(boneNum)) == FirstMatchFrom(bltlist, BoneKey(boneNum), i)
    {
      if bltlist[i].boneNumber == -1 {
        continue;
      }
      if bltlist[i].boneNumber == boneNum {
        return i;
      }
    }
    return -1;
  }

  /** G2_Find_Bolt_Surface_Num: the first in-use slot bolted to surface
      `surfaceNum` whose type has every bit of `flags`, or -1. */
  method FindBoltSurfaceNum(bltlist: seq<BoltInfo>, surfaceNum: int, flags: bv32) returns (r: int)
    ensures r == FirstMatch(bltlist, SurfaceKey(surfaceNum, flags))
    ensures r != -1 ==> 0 <= r < |bltlist| && surfaceNum != -1 &&
                        bltlist[r].surfaceNumber == surfaceNum && HasAllBits(bltlist[r].surfaceType, flags)
    ensures r == -1 <==> forall j :: 0 <= j < |bltlist| ==> !Matches(bltlist[j], SurfaceKey(surfaceNum, flags))
  {
    for i := 0 to |bltlist|
      invariant FirstMatch(bltlist, SurfaceKey(surfaceNum, flags)) == FirstMatchFrom(bltlist, SurfaceKey(surfaceNum, flags), i)
    {
      if bltlist[i].surfaceNumber == -1 {
        continue;
      }
      if bltlist[i].surfaceNumber == surfaceNum && HasAllBits(bltlist[i].surfaceType, flags) {
        return i;
      }
    }
    return -1;
  }

  // ---------------------------------------------------------------------
  // Adding a reference

  /** Well-formed bolt list: every slot in use holds at least one reference. */
  predicate UsedCounted(bl: seq<BoltInfo>)
  {
    forall j :: 0 <= j < |bl| ==> IsFree(bl[j]) || bl[j].boltUsed >= 1
  }

  /** The list is empty or its last slot is in use. */
  predicate Trimmed(bl: seq<BoltInfo>)
  {
    bl == [] || !IsFree(bl[|bl| - 1])
  }

  /** The common shape of every add: bump the count of the first slot matching
      `k`, else put `entry` in the first free slot, else append it. Returns the
      new list and the slot index. */
  function AddRef(bl: seq<BoltInfo>, k: Key, entry: BoltInfo): (r: (seq<BoltInfo>, int))
    ensures 0 <= r.1 < |r.0| && (|r.0| == |bl| || |r.0| == |bl| + 1)
    ensures forall j :: 0 <= j < |bl| && j != r.1 ==> r.0[j] == bl[j]
    ensures FirstMatch(bl, k) != -1 ==>
              r.1 == FirstMatch(bl, k) && r.0 == bl[r.1 := bl[r.1].(boltUsed := bl[r.1].boltUsed + 1)]
    ensures FirstMatch(bl, k) == -1 ==> r.0[r.1] == entry && (r.1 < |bl| ==> IsFree(bl[r.1]))
    ensures FirstMatch(bl, k) == -1 && r.1 < |bl| ==> r.1 == FirstMatch(bl, FreeKey) && |r.0| == |bl|
    ensures FirstMatch(bl, k) == -1 && r.1 == |bl| ==> forall j :: 0 <= j < |bl| ==> !IsFree(bl[j])
  {
    var e := FirstMatch(bl, k);
    if e != -1 then (bl[e := bl[e].(boltUsed := bl[e].boltUsed + 1)], e)
    else
      var f := FirstMatch(bl, FreeKey);
      if f != -1 then (bl[f := entry], f) else (bl + [entry], |bl|)
  }

  /** After an add the returned slot is what a scan for the same key finds. */
  lemma AddRefFound(bl: seq<BoltInfo>, k: Key, entry: BoltInfo)
    requires Matches(entry, k)
    ensures FirstMatch(AddRef(bl, k, entry).0, k) == AddRef(bl, k, entry).1
  {
    var r := AddRef(bl, k, entry);
    var e := FirstMatch(bl, k);
    if e != -1 {
      assert Matches(r.0[e], k);
      FirstMatchUnique(r.0, k, e);
    } else {
      forall j | 0 <= j < r.1 ensures !Matches(r.0[j], k) {
        assert r.0[j] == bl[j];
      }
      FirstMatchUnique(r.0, k, r.1);
    }
  }

  /** Adds keep the list well formed and trimmed. */
  lemma AddRefKeepsWF(bl: seq<BoltInfo>, k: Key, entry: BoltInfo)
    requires UsedCounted(bl) && Trimmed(bl)
    requires !IsFree(entry) && entry.boltUsed == 1 && k != FreeKey
    ensures UsedCounted(AddRef(bl, k, entry).0) && Trimmed(AddRef(bl, k, entry).0)
  {
    var r := AddRef(bl, k, entry);
    var e := FirstMatch(bl, k);
    if e != -1 {
      assert !IsFree(bl[e]);
    }
  }

  /** G2_Add_Bolt_Surf_Num on values: a bolt on slot `surfNum` of an override
      list of length `slistSize`, typed as generated. */
  function AddBoltSurfNumSpec(bl: seq<BoltInfo>, slistSize: int, surfNum: int): (r: (seq<BoltInfo>, int))
    ensures (surfNum < 0 || surfNum >= slistSize) <==> r.1 == -1
    ensures r.1 == -1 ==> r.0 == bl
    ensures r.1 != -1 ==> 0 <= r.1 < |r.0| && r.0[r.1].surfaceNumber == surfNum &&
                          FirstMatch(r.0, SurfaceKey(surfNum, 0)) == r.1
  {
    if surfNum < 0 || surfNum >= slistSize then (bl, -1)
    else
      AddRefFound(bl, SurfaceKey(surfNum, 0), BoltInfo(-1, surfNum, GENERATED, 1));
      AddRef(bl, SurfaceKey(surfNum, 0), BoltInfo(-1, surfNum, GENERATED, 1))
  }

  /** The "already there?" loop shared by the add routines. */
  method BumpExisting(g: Ghoul2Info, k: Key) returns (r: int)
    requires k.SurfaceKey? ==> k.surface != -1 && k.typeMask == 0
    requires k.BoneKey? ==> k.bone != -1
    requires k != FreeKey
    modifies g`mBltlist
    ensures r == FirstMatch(old(g.mBltlist), k)
    ensures g.mBltlist == if r == -1 then old(g.mBltlist)
                          else old(g.mBltlist)[r := old(g.mBltlist)[r].(boltUsed := old(g.mBltlist)[r].boltUsed + 1)]
  {
    for i := 0 to |g.mBltlist|
      invariant g.mBltlist == old(g.mBltlist)
      invariant FirstMatch(g.mBltlist, k) == FirstMatchFrom(g.mBltlist, k, i)
    {
      var hit := match k
        case SurfaceKey(s, _) => g.mBltlist[i].surfaceNumber == s
        case BoneKey(x) => g.mBltlist[i].boneNumber == x;
      if hit {
        g.mBltlist := g.mBltlist[i := g.mBltlist[i].(boltUsed := g.mBltlist[i].boltUsed + 1)];
        return i;
      }
    }
    return -1;
  }

  /** The "re-use an empty slot, else append" half shared by the add routines. */
  method PlaceEntry(g: Ghoul2Info, entry: BoltInfo) returns (r: int)
    modifies g`mBltlist
    ensures var f := FirstMatch(old(g.mBltlist), FreeKey);
            (f != -1 ==> r == f && g.mBltlist == old(g.mBltlist)[f := entry]) &&
            (f == -1 ==> r == |old(g.mBltlist)| && g.mBltlist == old(g.mBltlist) + [entry])
  {
    for i := 0 to |g.mBltlist|
      invariant g.mBltlist == old(g.mBltlist)
      invariant FirstMatch(g.mBltlist, FreeKey) == FirstMatchFrom(g.mBltlist, FreeKey, i)
    {
      if g.mBltlist[i].boneNumber == -1 && g.mBltlist[i].surfaceNumber == -1 {
        g.mBltlist := g.mBltlist[i := entry];
        return i;
      }
    }
    g.mBltlist := g.mBltlist + [entry];
    return |g.mBltlist| - 1;
  }

  /** Adds a reference under key `k`, as every add routine does once it knows what to bolt to. */
  method AddRefTo(g: Ghoul2Info, k: Key, entry: BoltInfo) returns (r: int)
    requires k.SurfaceKey? ==> k.surface != -1 && k.typeMask == 0
    requires k.BoneKey? ==> k.bone != -1
    requires k != FreeKey
    modifies g`mBltlist
    ensures (g.mBltlist, r) == AddRef(old(g.mBltlist), k, entry)
  {
    r := BumpExisting(g, k);
    if r == -1 {
      r := PlaceEntry(g, entry);
    }
  }

  /** G2_Add_Bolt_Surf_Num: bolt to override slot `surfNum` (a generated surface). */
  method AddBoltSurfNum(g: Ghoul2Info, surfNum: int) returns (r: int)
    modifies g`mBltlist
    ensures (g.mBltlist, r) == AddBoltSurfNumSpec(old(g.mBltlist), |old(g.mSlist)|, surfNum)
  {
    if surfNum < 0 || surfNum >= |g.mSlist| {
      return -1;
    }
    r := AddRefTo(g, SurfaceKey(surfNum, 0), BoltInfo(-1, surfNum, GENERATED, 1));
  }

  /** Index of the first bone of the skeleton named `name` (ignoring case), or -1. */
  function FirstBoneNamedFrom(boneNames: seq<string>, name: string, i: nat): (r: int)
    requires i <= |boneNames|
    ensures r == -1 || (i <= r < |boneNames| && SameIgnoringCase(boneNames[r], name))
    ensures r == -1 ==> forall j :: i <= j < |boneNames| ==> !SameIgnoringCase(boneNames[j], name)
    ensures r != -1 ==> forall j :: i <= j < r ==> !SameIgnoringCase(boneNames[j], name)
    decreases |boneNames| - i
  {
    if i == |boneNames| then -1
    else if SameIgnoringCase(boneNames[i], name) then i
    else FirstBoneNamedFrom(boneNames, name, i + 1)
  }

  /** G2_Add_Bolt on values: a surface of that name wins over a bone of that name. */
  function AddBoltSpec(md: Model, bl: seq<BoltInfo>, boneName: string): (r: (seq<BoltInfo>, int))
    ensures r.1 != -1 ==> 0 <= r.1 < |r.0|
    ensures var s := FirstNamed(md.mesh, boneName);
            s != -1 ==> r.1 != -1 && r.0[r.1].surfaceNumber == s && FirstMatch(r.0, SurfaceKey(s, 0)) == r.1
    ensures var s := FirstNamed(md.mesh, boneName);
            var x := FirstBoneNamedFrom(md.boneNames, boneName, 0);
            s == -1 && x != -1 ==> r.1 != -1 && r.0[r.1].boneNumber == x && FirstMatch(r.0, BoneKey(x)) == r.1
    ensures r.1 == -1 <==> FirstNamed(md.mesh, boneName) == -1 && FirstBoneNamedFrom(md.boneNames, boneName, 0) == -1
    ensures r.1 == -1 ==> r.0 == bl
  {
    var s := FirstNamed(md.mesh, boneName);
    if s != -1 then
      AddRefFound(bl, SurfaceKey(s, 0), BoltInfo(-1, s, 0, 1));
      AddRef(bl, SurfaceKey(s, 0), BoltInfo(-1, s, 0, 1))
    else
      var x := FirstBoneNamedFrom(md.boneNames, boneName, 0);
      if x == -1 then (bl, -1)
      else
        AddRefFound(bl, BoneKey(x), BoltInfo(x, -1, 0, 1));
        AddRef(bl, BoneKey(x), BoltInfo(x, -1, 0, 1))
  }

  /** G2_Add_Bolt: bolt to the surface called `boneName`, else to the bone of that name. */
  method AddBolt(g: Ghoul2Info, boneName: string) returns (r: int)
    requires MeshWF(g.model.mesh)
    modifies g`mBltlist
    ensures (g.mBltlist, r) == AddBoltSpec(g.model, old(g.mBltlist), boneName)
  {
    var surfNum, flags := IsSurfaceLegal(g.model.mesh, boneName);
    if surfNum != -1 {
      r := AddRefTo(g, SurfaceKey(surfNum, 0), BoltInfo(-1, surfNum, 0, 1));
      return;
    }
    var bones := g.model.boneNames;
    var x := 0;
    while x < |bones|
      invariant 0 <= x <= |bones|
      invariant FirstBoneNamedFrom(bones, boneName, 0) == FirstBoneNamedFrom(bones, boneName, x)
    {
      if SameIgnoringCase(bones[x], boneName) {
        break;
      }
      x := x + 1;
    }
    if x == |bones| {
      return -1;
    }
    r := AddRefTo(g, BoneKey(x), BoltInfo(x, -1, 0, 1));
  }

  // ---------------------------------------------------------------------
  // Removing a reference

  /** The list with its trailing free slots cut off. */
  function TrimFree(bl: seq<BoltInfo>): (r: seq<BoltInfo>)
    ensures r <= bl && Trimmed(r)
    ensures forall j :: |r| <= j < |bl| ==> IsFree(bl[j])
    decreases |bl|
  {
    if bl == [] || !IsFree(bl[|bl| - 1]) then bl else TrimFree(bl[..|bl| - 1])
  }

  /** Trimming a trimmed list changes nothing, and free slots appended to a
      list vanish again. */
  lemma {:induction false} TrimFreeAppendFree(a: seq<BoltInfo>, f: seq<BoltInfo>)
    requires forall j :: 0 <= j < |f| ==> IsFree(f[j])
    ensures TrimFree(a + f) == TrimFree(a)
    decreases |f|
  {
    if f == [] {
      assert a + f == a;
    } else {
      var f' := f[..|f| - 1];
      assert (a + f)[..|a + f| - 1] == a + f';
      TrimFreeAppendFree(a, f');
    }
  }

  lemma TrimFreeTrimmed(bl: seq<BoltInfo>)
    requires Trimmed(bl)
    ensures TrimFree(bl) == bl
  {
  }

  /** The slot state a removal of the last reference leaves behind. */
  function Freed(b: BoltInfo): BoltInfo
  {
    b.(boltUsed := 0, boneNumber := -1, surfaceNumber := -1)
  }

  /** G2_Remove_Bolt on values: one reference fewer; at zero the slot is freed
      and trailing free slots are trimmed. */
  function RemoveSpec(bl: seq<BoltInfo>, index: int): (r: seq<BoltInfo>)
    requires 0 <= index < |bl|
    ensures |r| <= |bl| && forall j :: 0 <= j < |r| && j != index ==> r[j] == bl[j]
    ensures bl[index].boltUsed != 1 ==> r == bl[index := bl[index].(boltUsed := bl[index].boltUsed - 1)]
    ensures bl[index].boltUsed == 1 ==> Trimmed(r) && (index < |r| ==> r[index] == Freed(bl[index]))
    ensures bl[index].boltUsed == 1 ==> forall j :: |r| <= j < |bl| ==> j == index || IsFree(bl[j])
  {
    var used := bl[index].boltUsed - 1;
    if used != 0 then bl[index := bl[index].(boltUsed := used)]
    else
      var freed := bl[index := Freed(bl[index])];
      assert forall j :: 0 <= j < |bl| && j != index ==> freed[j] == bl[j];
      TrimFree(freed)
  }

  /** G2_Remove_Bolt: -1 is refused; any other index must name a slot. */
  method RemoveBolt(g: Ghoul2Info, index: int) returns (ok: bool)
    requires index == -1 || 0 <= index < |g.mBltlist|
    modifies g`mBltlist
    ensures ok <==> index != -1
    ensures g.mBltlist == if index == -1 then old(g.mBltlist) else RemoveSpec(old(g.mBltlist), index)
  {
    if index == -1 {
      return false;
    }
    var b := g.mBltlist[index];
    g.mBltlist := g.mBltlist[index := b.(boltUsed := b.boltUsed - 1)];
    if b.boltUsed - 1 == 0 {
      g.mBltlist := g.mBltlist[index := Freed(b)];
      assert g.mBltlist == old(g.mBltlist)[index := Freed(old(g.mBltlist)[index])];
      TrimTrailingFree(g);
    }
    return true;
  }

  /** The back-to-front scan of G2_Remove_Bolt that cuts off trailing free slots. */
  method TrimTrailingFree(g: Ghoul2Info)
    modifies g`mBltlist
    ensures g.mBltlist == TrimFree(old(g.mBltlist))
  {
    ghost var bl := g.mBltlist;
    var newSize := |g.mBltlist|;
    var i := |g.mBltlist| - 1;
    while i > -1
      invariant -1 <= i < newSize <= |bl| && i == newSize - 1
      invariant g.mBltlist == bl
      invariant TrimFree(bl) == TrimFree(bl[..newSize])
    {
      if g.mBltlist[i].surfaceNumber == -1 && g.mBltlist[i].boneNumber == -1 {
        assert bl[..newSize][..i] == bl[..i];
        newSize := i;
      } else {
        break;
      }
      i := i - 1;
    }
    TrimFreeTrimmed(bl[..newSize]);
    if newSize != |g.mBltlist| {
      g.mBltlist := g.mBltlist[..newSize];
    }
  }

  /** Two lists that differ only in what their free slots hold. */
  predicate SameUpToFree(a: seq<BoltInfo>, b: seq<BoltInfo>)
  {
    |a| == |b| &&
    forall j :: 0 <= j < |a| ==> IsFree(a[j]) == IsFree(b[j]) && (!IsFree(a[j]) ==> a[j] == b[j])
  }

  /** Adding a reference and removing it again restores the list, except for
      the contents of a free slot that was reused. */
  lemma AddThenRemove(bl: seq<BoltInfo>, k: Key, entry: BoltInfo)
    requires UsedCounted(bl) && Trimmed(bl)
    requires !IsFree(entry) && entry.boltUsed == 1 && k != FreeKey
    ensures var r := AddRef(bl, k, entry);
            SameUpToFree(RemoveSpec(r.0, r.1), bl)
    ensures FirstMatch(bl, k) != -1 ==> RemoveSpec(AddRef(bl, k, entry).0, AddRef(bl, k, entry).1) == bl
  {
    var r := AddRef(bl, k, entry);
    var e := FirstMatch(bl, k);
    if e != -1 {
      assert !IsFree(bl[e]);
      assert RemoveSpec(r.0, r.1) == bl;
    } else if r.1 < |bl| {
      var freedList := r.0[r.1 := Freed(entry)];
      assert |bl| >= 1 && r.1 < |bl| - 1 by { assert !IsFree(bl[|bl| - 1]); }
      assert Trimmed(freedList);
      TrimFreeTrimmed(freedList);
    } else {
      var freedList := r.0[r.1 := Freed(entry)];
      assert freedList == bl + [Freed(entry)];
      TrimFreeAppendFree(bl, [Freed(entry)]);
      TrimFreeTrimmed(bl);
    }
  }

  /** Removals keep the list well formed. */
  lemma RemoveKeepsWF(bl: seq<BoltInfo>, index: int)
    requires UsedCounted(bl) && Trimmed(bl) && 0 <= index < |bl| && !IsFree(bl[index])
    ensures UsedCounted(RemoveSpec(bl, index)) && Trimmed(RemoveSpec(bl, index))
  {
  }

  // ---------------------------------------------------------------------
  // G2_Init_Bolt_List

  method InitBoltList(g: Ghoul2Info)
    modifies g`mBltlist
    ensures g.mBltlist == []
  {
    g.mBltlist := [];
  }

  // ---------------------------------------------------------------------
  // G2_RemoveRedundantBolts

  /** The table entries a slot in use would be checked against exist. */
  predicate SlotInRange(b: BoltInfo, numActiveSurfaces: int, numActiveBones: int)
  {
    (b.surfaceNumber != -1 ==> 0 <= b.surfaceNumber < numActiveSurfaces) &&
    (b.surfaceNumber == -1 && b.boneNumber != -1 ==> 0 <= b.boneNumber < numActiveBones)
  }

  predicate RefsInRange(bl: seq<BoltInfo>, numActiveSurfaces: int, numActiveBones: int)
  {
    forall j :: 0 <= j < |bl| ==> SlotInRange(bl[j], numActiveSurfaces, numActiveBones)
  }

  /** A slot in use that refers to something no longer there: a generated
      surface with no override slot, a surface not in the active table, or an
      inactive bone. The surface number of a bolt is looked up in the active
      table whether or not it is generated. */
  predicate Stale(b: BoltInfo, slist: seq<SurfaceInfo>, activeSurfaces: seq<bool>, activeBones: seq<bool>)
    requires SlotInRange(b, |activeSurfaces|, |activeBones|)
  {
    if b.surfaceNumber != -1 then
      (b.surfaceType != 0 && FirstOverride(slist, b.surfaceNumber).None?) || !activeSurfaces[b.surfaceNumber]
    else b.boneNumber != -1 && !activeBones[b.boneNumber]
  }

  /** The list with the stale slots among the first `n` freed. */
  function MarkStale(bl: seq<BoltInfo>, slist: seq<SurfaceInfo>, activeSurfaces: seq<bool>, activeBones: seq<bool>, n: int): (r: seq<BoltInfo>)
    requires RefsInRange(bl, |activeSurfaces|, |activeBones|)
    ensures |r| == |bl| && RefsInRange(r, |activeSurfaces|, |activeBones|)
    ensures forall j :: 0 <= j < |bl| ==>
              r[j] == if j < n && Stale(bl[j], slist, activeSurfaces, activeBones) then Freed(bl[j]) else bl[j]
  {
    seq(|bl|, j requires 0 <= j < |bl| =>
      if j < n && Stale(bl[j], slist, activeSurfaces, activeBones) then Freed(bl[j]) else bl[j])
  }

  /** Forcing out a slot: count set to one, then one reference removed. */
  function ForceRemove(bl: seq<BoltInfo>, i: int): (r: seq<BoltInfo>)
    requires 0 <= i < |bl|
    ensures |r| <= |bl|
  {
    RemoveSpec(bl[i := bl[i].(boltUsed := 1)], i)
  }

  /** A slot that has been forced out, if still in the list, is a no-op to force out again. */
  lemma ForceRemoveTwice(bl: seq<BoltInfo>, i: int)
    requires 0 <= i < |bl| && i < |ForceRemove(bl, i)|
    ensures ForceRemove(ForceRemove(bl, i), i) == ForceRemove(bl, i)
  {
    var once := ForceRemove(bl, i);
    assert once[i := once[i].(boltUsed := 1)][i := Freed(once[i])] == once;
    TrimFreeTrimmed(once);
  }

  /** One step of the loop: forcing out slot `i` of the trimmed, partly
      marked list is the same as marking one more slot. */
  lemma ForceRemoveStep(bl: seq<BoltInfo>, slist: seq<SurfaceInfo>, aS: seq<bool>, aB: seq<bool>, i: int)
    requires RefsInRange(bl, |aS|, |aB|)
    requires 0 <= i < |TrimFree(MarkStale(bl, slist, aS, aB, i))|
    requires Stale(bl[i], slist, aS, aB)
    ensures TrimFree(MarkStale(bl, slist, aS, aB, i))[i] == bl[i]
    ensures ForceRemove(TrimFree(MarkStale(bl, slist, aS, aB, i)), i) == TrimFree(MarkStale(bl, slist, aS, aB, i + 1))
  {
    var s := MarkStale(bl, slist, aS, aB, i);
    var cur := TrimFree(s);
    var tail := s[|cur|..];
    var freed := cur[i := Freed(bl[i])];
    assert cur[i] == s[i];
    ForceRemoveFrees(cur, i);
    MarkStaleNext(bl, slist, aS, aB, i);
    SplitAtTrim(s, i, Freed(bl[i]));
    TrimFreeAppendFree(freed, tail);
  }

  /** Forcing out a slot frees it and trims the list. */
  lemma ForceRemoveFrees(bl: seq<BoltInfo>, i: int)
    requires 0 <= i < |bl|
    ensures ForceRemove(bl, i) == TrimFree(bl[i := Freed(bl[i])])
  {
    var forced := bl[i := bl[i].(boltUsed := 1)];
    assert forced[i := Freed(forced[i])] == bl[i := Freed(bl[i])];
  }

  /** Marking one more stale slot frees just that slot. */
  lemma MarkStaleNext(bl: seq<BoltInfo>, slist: seq<SurfaceInfo>, aS: seq<bool>, aB: seq<bool>, i: int)
    requires RefsInRange(bl, |aS|, |aB|) && 0 <= i < |bl| && Stale(bl[i], slist, aS, aB)
    ensures MarkStale(bl, slist, aS, aB, i + 1) == MarkStale(bl, slist, aS, aB, i)[i := Freed(bl[i])]
  {
  }

  /** A list is its trimmed part followed by free slots, and a change in
      the trimmed part stays in front of them. */
  lemma SplitAtTrim(s: seq<BoltInfo>, i: int, x: BoltInfo)
    requires 0 <= i < |TrimFree(s)|
    ensures var cur := TrimFree(s);
            s[i := x] == cur[i := x] + s[|cur|..] &&
            forall j :: 0 <= j < |s[|cur|..]| ==> IsFree(s[|cur|..][j])
  {
    var cur := TrimFree(s);
    assert s == cur + s[|cur|..];
  }

  /** Some slot before `n` is stale. */
  predicate AnyStale(bl: seq<BoltInfo>, slist: seq<SurfaceInfo>, activeSurfaces: seq<bool>, activeBones: seq<bool>, n: int)
    requires RefsInRange(bl, |activeSurfaces|, |activeBones|)
  {
    exists j :: 0 <= j < n && j < |bl| && Stale(bl[j], slist, activeSurfaces, activeBones)
  }

  /** The list after RemoveRedundantBolts has looked at the first `n` slots:
      untouched while nothing was stale, and once a bolt has been forced out,
      the list with the stale slots freed and trailing free slots trimmed. */
  function PruneStale(bl: seq<BoltInfo>, slist: seq<SurfaceInfo>, activeSurfaces: seq<bool>, activeBones: seq<bool>, n: int): (r: seq<BoltInfo>)
    requires RefsInRange(bl, |activeSurfaces|, |activeBones|)
    ensures |r| <= |bl|
  {
    if AnyStale(bl, slist, activeSurfaces, activeBones, n)
    then TrimFree(MarkStale(bl, slist, activeSurfaces, activeBones, n))
    else bl
  }

  /** The slot the loop looks at has not been touched yet. */
  lemma PruneStaleAt(bl: seq<BoltInfo>, slist: seq<SurfaceInfo>, aS: seq<bool>, aB: seq<bool>, i: int)
    requires RefsInRange(bl, |aS|, |aB|)
    requires 0 <= i < |PruneStale(bl, slist, aS, aB, i)|
    ensures PruneStale(bl, slist, aS, aB, i)[i] == bl[i]
  {
    if AnyStale(bl, slist, aS, aB, i) {
      assert TrimFree(MarkStale(bl, slist, aS, aB, i))[i] == MarkStale(bl, slist, aS, aB, i)[i];
    }
  }

  /** One step of the loop: a stale slot is forced out, any other left alone. */
  lemma PruneStaleStep(bl: seq<BoltInfo>, slist: seq<SurfaceInfo>, aS: seq<bool>, aB: seq<bool>, i: int)
    requires RefsInRange(bl, |aS|, |aB|)
    requires 0 <= i < |PruneStale(bl, slist, aS, aB, i)|
    ensures PruneStale(bl, slist, aS, aB, i + 1) ==
              if Stale(bl[i], slist, aS, aB) then ForceRemove(PruneStale(bl, slist, aS, aB, i), i)
              else PruneStale(bl, slist, aS, aB, i)
  {
    var before := AnyStale(bl, slist, aS, aB, i);
    var stale := Stale(bl[i], slist, aS, aB);
    if stale {
      assert AnyStale(bl, slist, aS, aB, i + 1);
      if before {
        ForceRemoveStep(bl, slist, aS, aB, i);
      } else {
        forall j | 0 <= j < |bl| && j < i ensures MarkStale(bl, slist, aS, aB, i + 1)[j] == bl[j] {
          assert !Stale(bl[j], slist, aS, aB);
        }
        assert MarkStale(bl, slist, aS, aB, i + 1) == bl[i := Freed(bl[i])];
        assert bl[i := bl[i].(boltUsed := 1)][i := Freed(bl[i])] == bl[i := Freed(bl[i])];
      }
    } else {
      assert AnyStale(bl, slist, aS, aB, i + 1) == before;
      assert MarkStale(bl, slist, aS, aB, i + 1) == MarkStale(bl, slist, aS, aB, i);
    }
  }

  /** The two facts above, about the current list only. */
  lemma PruneStaleLoopStep(bl: seq<BoltInfo>, slist: seq<SurfaceInfo>, aS: seq<bool>, aB: seq<bool>, i: int)
    requires RefsInRange(bl, |aS|, |aB|)
    requires 0 <= i < |PruneStale(bl, slist, aS, aB, i)|
    ensures var cur := PruneStale(bl, slist, aS, aB, i);
            SlotInRange(cur[i], |aS|, |aB|) &&
            PruneStale(bl, slist, aS, aB, i + 1) ==
              if Stale(cur[i], slist, aS, aB) then ForceRemove(cur, i) else cur
  {
    PruneStaleAt(bl, slist, aS, aB, i);
    PruneStaleStep(bl, slist, aS, aB, i);
  }

  /** Once the list has shrunk to at most `i` slots, nothing is left to do. */
  lemma PruneStaleDone(bl: seq<BoltInfo>, slist: seq<SurfaceInfo>, aS: seq<bool>, aB: seq<bool>, i: int)
    requires RefsInRange(bl, |aS|, |aB|) && 0 <= i <= |bl|
    requires |PruneStale(bl, slist, aS, aB, i)| <= i
    ensures PruneStale(bl, slist, aS, aB, i) == PruneStale(bl, slist, aS, aB, |bl|)
  {
    if AnyStale(bl, slist, aS, aB, i) {
      assert AnyStale(bl, slist, aS, aB, |bl|);
      var s := MarkStale(bl, slist, aS, aB, i);
      var s' := MarkStale(bl, slist, aS, aB, |bl|);
      forall j | 0 <= j < |bl| ensures s'[j] == s[j] {
        if j >= i {
          assert IsFree(s[j]);
        }
      }
      assert s == s';
    }
  }

  /** One pass of the loop of G2_RemoveRedundantBolts over slot `i`. */
  method PruneSlot(g: Ghoul2Info, i: int, activeSurfaces: seq<bool>, activeBones: seq<bool>)
    requires 0 <= i < |g.mBltlist| && SlotInRange(g.mBltlist[i], |activeSurfaces|, |activeBones|)
    modifies g`mBltlist
    ensures g.mBltlist == if Stale(old(g.mBltlist)[i], old(g.mSlist), activeSurfaces, activeBones)
                          then ForceRemove(old(g.mBltlist), i) else old(g.mBltlist)
  {
    var b := g.mBltlist[i];
    if b.surfaceNumber != -1 || b.boneNumber != -1 {
      if b.surfaceNumber != -1 {
        var removed := false;
        if b.surfaceType != 0 {
          var o := FindOverrideSurface(b.surfaceNumber, g.mSlist);
          if o.None? {
            g.mBltlist := g.mBltlist[i := b.(boltUsed := 1)];
            var _ := RemoveBolt(g, i);
            removed := true;
          }
        }
        if !removed && !activeSurfaces[b.surfaceNumber] {
          g.mBltlist := g.mBltlist[i := b.(boltUsed := 1)];
          var _ := RemoveBolt(g, i);
        }
      } else if !activeBones[b.boneNumber] {
        g.mBltlist := g.mBltlist[i := b.(boltUsed := 1)];
        var _ := RemoveBolt(g, i);
      }
    }
  }

  /** G2_RemoveRedundantBolts: every stale bolt is forced out, whatever its
      count. `activeSurfaces` is the memory the engine reads through its table
      pointer, the table itself followed by whatever lies past its end. A slot
      forced out as a generated surface is not looked up a second time: the
      engine then reads at index -1, before the table, and forcing the slot
      out again would not change the list while it is still there
      (ForceRemoveTwice). */
  method RemoveRedundantBolts(g: Ghoul2Info, activeSurfaces: seq<bool>, activeBones: seq<bool>)
    requires RefsInRange(g.mBltlist, |activeSurfaces|, |activeBones|)
    modifies g`mBltlist
    ensures g.mBltlist == PruneStale(old(g.mBltlist), old(g.mSlist), activeSurfaces, activeBones, |old(g.mBltlist)|)
  {
    ghost var orig := g.mBltlist;
    ghost var slist := g.mSlist;
    var i := 0;
    while i < |g.mBltlist|
      invariant 0 <= i <= |orig|
      invariant g.mBltlist == PruneStale(orig, slist, activeSurfaces, activeBones, i)
      decreases |g.mBltlist| - i
    {
      PruneStaleLoopStep(orig, slist, activeSurfaces, activeBones, i);
      PruneSlot(g, i, activeSurfaces, activeBones);
      i := i + 1;
    }
    PruneStaleDone(orig, slist, activeSurfaces, activeBones, i);
  }

  /** What survives RemoveRedundantBolts: exactly the slots that were in use
      and not stale, each unchanged and at its old index; when nothing was
      stale the list is returned as it was. */
  lemma RemoveRedundantBoltsResult(bl: seq<BoltInfo>, slist: seq<SurfaceInfo>, aS: seq<bool>, aB: seq<bool>, j: int)
    requires RefsInRange(bl, |aS|, |aB|) && 0 <= j < |bl|
    ensures var r := PruneStale(bl, slist, aS, aB, |bl|);
            (!IsFree(bl[j]) && !Stale(bl[j], slist, aS, aB) ==> j < |r| && r[j] == bl[j]) &&
            (j < |r| && !IsFree(r[j]) ==> r[j] == bl[j] && !Stale(bl[j], slist, aS, aB)) &&
            (Stale(bl[j], slist, aS, aB) ==> j >= |r| || IsFree(r[j]))
    ensures !AnyStale(bl, slist, aS, aB, |bl|) ==> PruneStale(bl, slist, aS, aB, |bl|) == bl
  {
    if AnyStale(bl, slist, aS, aB, |bl|) {
      var s := MarkStale(bl, slist, aS, aB, |bl|);
      var r := TrimFree(s);
      if !IsFree(bl[j]) && !Stale(bl[j], slist, aS, aB) {
        assert s[j] == bl[j] && !IsFree(s[j]);
      }
      if j < |r| {
        assert r[j] == s[j];
      }
    }
  }
}
