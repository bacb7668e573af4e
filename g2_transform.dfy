// The collision transform pass of G2_misc.cpp: every surface the transform
// walk handles gets a block of the per-frame vertex arena, filled with one
// five-float record per vertex.
module G2Transform {
  import opened Ghoul2Types
  import opened G2Lookup
  import opened G2Misc

  /** Bytes taken per transformed vertex: five floats x, y, z, S, T. */
  const VERTEX_RECORD_BYTES: nat := 5 * 4

  /** Bytes taken per surface by an instance's slot array (one size_t each). */
  const SLOT_BYTES: nat := 8

  /** The allocator's test: a request fits when it is strictly smaller than
      what is left. */
  predicate Fits(offset: nat, capacity: nat, size: nat)
  {
    size < capacity - offset
  }

  /**
   * CMiniHeap: a bump allocator over `capacity` bytes starting at address
   * `base`.  `floats` holds what has been written into it, by byte address.
   */
  class Arena {
    const base: int
    const capacity: nat
    var offset: nat
    var floats: map<int, real>

    ghost predicate Valid()
      reads this
    {
      base > 0 && offset <= capacity
    }

    constructor (base: int, capacity: nat)
      requires base > 0
      ensures Valid() && this.base == base && this.capacity == capacity
      ensures offset == 0 && floats == map[]
    {
      this.base := base;
      this.capacity := capacity;
      offset := 0;
      floats := map[];
    }

    /** MiniHeapAlloc: the address of `size` fresh bytes, or 0 when they do not fit. */
    method Alloc(size: nat) returns (addr: int)
      requires Valid()
      modifies this`offset
      ensures Valid()
      ensures Fits(old(offset), capacity, size) ==> addr == base + old(offset) && offset == old(offset) + size
      ensures !Fits(old(offset), capacity, size) ==> addr == 0 && offset == old(offset)
    {
      if Fits(offset, capacity, size) {
        addr := base + offset;
        offset := offset + size;
      } else {
        addr := 0;
      }
    }
  }

  // ---------------------------------------------------------------------
  // R_TransformEachSurface

  /** Float `c` of the record of vertex `j`: the skinned position scaled on
      x, y and z, then the two texture coordinates unscaled. */
  function VertexComponent(ls: LodSurface, scale: Vec3, j: int, c: int): real
    requires |ls.positions| == ls.numVerts && |ls.texS| == ls.numVerts && |ls.texT| == ls.numVerts
    requires 0 <= j < ls.numVerts && 0 <= c < 5
  {
    if c == 0 then ls.positions[j].x * scale.x
    else if c == 1 then ls.positions[j].y * scale.y
    else if c == 2 then ls.positions[j].z * scale.z
    else if c == 3 then ls.texS[j]
    else ls.texT[j]
  }

  /** The records of the first `n` vertices, packed from address `addr`. */
  function Records(addr: int, ls: LodSurface, scale: Vec3, n: nat): map<int, real>
    requires |ls.positions| == ls.numVerts && |ls.texS| == ls.numVerts && |ls.texT| == ls.numVerts
    requires n <= ls.numVerts
  {
    if n == 0 then map[]
    else
      var at := addr + VERTEX_RECORD_BYTES * (n - 1);
      Records(addr, ls, scale, n - 1)
        [at := VertexComponent(ls, scale, n - 1, 0)]
        [at + 4 := VertexComponent(ls, scale, n - 1, 1)]
        [at + 8 := VertexComponent(ls, scale, n - 1, 2)]
        [at + 12 := VertexComponent(ls, scale, n - 1, 3)]
        [at + 16 := VertexComponent(ls, scale, n - 1, 4)]
  }

  /** The records lie in the `20 * n` bytes from `addr`, and float `c` of
      vertex `j` sits at byte `addr + 4 * (5 * j + c)`. */
  lemma {:induction false} RecordsLayout(addr: int, ls: LodSurface, scale: Vec3, n: nat, j: int, c: int)
    requires |ls.positions| == ls.numVerts && |ls.texS| == ls.numVerts && |ls.texT| == ls.numVerts
    requires n <= ls.numVerts && 0 <= j < n && 0 <= c < 5
    ensures addr + 4 * (5 * j + c) in Records(addr, ls, scale, n)
    ensures Records(addr, ls, scale, n)[addr + 4 * (5 * j + c)] == VertexComponent(ls, scale, j, c)
    decreases n
  {
    if j < n - 1 {
      RecordsLayout(addr, ls, scale, n - 1, j, c);
      RecordsInBlock(addr, ls, scale, n - 1);
    }
  }

  lemma {:induction false} RecordsInBlock(addr: int, ls: LodSurface, scale: Vec3, n: nat)
    requires |ls.positions| == ls.numVerts && |ls.texS| == ls.numVerts && |ls.texT| == ls.numVerts
    requires n <= ls.numVerts
    ensures forall a :: a in Records(addr, ls, scale, n) ==> addr <= a < addr + VERTEX_RECORD_BYTES * n
    decreases n
  {
    if n > 0 {
      RecordsInBlock(addr, ls, scale, n - 1);
    }
  }

  /** With a unit scale the records hold the positions as they are, which
      is why the engine's unscaled branch is the same computation. */
  lemma UnitScaleKeepsPositions(ls: LodSurface, j: int)
    requires |ls.positions| == ls.numVerts && |ls.texS| == ls.numVerts && |ls.texT| == ls.numVerts
    requires 0 <= j < ls.numVerts
    ensures VertexComponent(ls, Vec3(1.0, 1.0, 1.0), j, 0) == ls.positions[j].x
    ensures VertexComponent(ls, Vec3(1.0, 1.0, 1.0), j, 1) == ls.positions[j].y
    ensures VertexComponent(ls, Vec3(1.0, 1.0, 1.0), j, 2) == ls.positions[j].z
  {
  }

  /**
   * R_TransformEachSurface: takes a block for the surface's vertex records
   * from the arena, stores its address in the slot of the surface and
   * writes the records.  When the arena is exhausted the slot is set to 0
   * and the pass is abandoned (the engine raises a fatal error).
   */
  method TransformEachSurface(ls: LodSurface, scale: Vec3, arena: Arena, transformedVerts: array<int>)
    returns (ok: bool)
    requires arena.Valid() && LodSurfaceWF(ls, ls.thisSurfaceIndex)
    requires 0 <= ls.thisSurfaceIndex < transformedVerts.Length
    modifies arena`offset, arena`floats, transformedVerts
    ensures arena.Valid()
    ensures ok == Fits(old(arena.offset), arena.capacity, VERTEX_RECORD_BYTES * ls.numVerts)
    ensures ok ==> transformedVerts[..] == old(transformedVerts[..])[ls.thisSurfaceIndex := arena.base + old(arena.offset)]
    ensures ok ==> arena.offset == old(arena.offset) + VERTEX_RECORD_BYTES * ls.numVerts
    ensures ok ==> arena.floats == old(arena.floats) + Records(arena.base + old(arena.offset), ls, scale, ls.numVerts)
    ensures !ok ==> transformedVerts[..] == old(transformedVerts[..])[ls.thisSurfaceIndex := 0]
    ensures !ok ==> arena.offset == old(arena.offset) && arena.floats == old(arena.floats)
  {
    var addr := arena.Alloc(VERTEX_RECORD_BYTES * ls.numVerts);
    transformedVerts[ls.thisSurfaceIndex] := addr;
    if addr == 0 {
      return false;
    }
    WriteRecords(arena, addr, ls, scale);
    return true;
  }

  /** The vertex loop of G2_TransformEachSurface: five floats per vertex,
      the scaled position and the texture coordinates, from `addr` on. */
  method WriteRecords(arena: Arena, addr: int, ls: LodSurface, scale: Vec3)
    requires |ls.positions| == ls.numVerts && |ls.texS| == ls.numVerts && |ls.texT| == ls.numVerts
    modifies arena`floats
    ensures arena.floats == old(arena.floats) + Records(addr, ls, scale, ls.numVerts)
  {
    ghost var before := arena.floats;
    var pos := 0;
    for j := 0 to ls.numVerts
      invariant pos == 5 * j
      invariant arena.floats == before + Records(addr, ls, scale, j)
    {
      RecordsExtend(before, addr, ls, scale, j);
      var at := addr + 4 * pos;
      assert at == addr + VERTEX_RECORD_BYTES * j;
      arena.floats := arena.floats[at := ls.positions[j].x * scale.x][at + 4 := ls.positions[j].y * scale.y]
                                  [at + 8 := ls.positions[j].z * scale.z][at + 12 := ls.texS[j]][at + 16 := ls.texT[j]];
      pos := pos + 5;
    }
  }

  /** One more record on top of earlier memory contents. */
  lemma RecordsExtend(before: map<int, real>, addr: int, ls: LodSurface, scale: Vec3, j: nat)
    requires |ls.positions| == ls.numVerts && |ls.texS| == ls.numVerts && |ls.texT| == ls.numVerts
    requires j < ls.numVerts
    ensures var at := addr + VERTEX_RECORD_BYTES * j;
            before + Records(addr, ls, scale, j + 1) ==
            (before + Records(addr, ls, scale, j))
              [at := ls.positions[j].x * scale.x]
              [at + 4 := ls.positions[j].y * scale.y]
              [at + 8 := ls.positions[j].z * scale.z]
              [at + 12 := ls.texS[j]]
              [at + 16 := ls.texT[j]]
  {
    var at := addr + VERTEX_RECORD_BYTES * j;
    var r0 := Records(addr, ls, scale, j);
    var r1 := r0[at := ls.positions[j].x * scale.x];
    var r2 := r1[at + 4 := ls.positions[j].y * scale.y];
    var r3 := r2[at + 8 := ls.positions[j].z * scale.z];
    var r4 := r3[at + 12 := ls.texS[j]];
    UnionUpdate(before, r0, at, ls.positions[j].x * scale.x);
    UnionUpdate(before, r1, at + 4, ls.positions[j].y * scale.y);
    UnionUpdate(before, r2, at + 8, ls.positions[j].z * scale.z);
    UnionUpdate(before, r3, at + 12, ls.texS[j]);
    UnionUpdate(before, r4, at + 16, ls.texT[j]);
    assert VertexComponent(ls, scale, j, 0) == ls.positions[j].x * scale.x;
    assert VertexComponent(ls, scale, j, 1) == ls.positions[j].y * scale.y;
    assert VertexComponent(ls, scale, j, 2) == ls.positions[j].z * scale.z;
    assert VertexComponent(ls, scale, j, 3) == ls.texS[j];
    assert VertexComponent(ls, scale, j, 4) == ls.texT[j];
    assert Records(addr, ls, scale, j + 1) == r4[at + 16 := ls.texT[j]];
  }

  /** Writing one address after a union is writing it into the right operand. */
  lemma UnionUpdate(a: map<int, real>, b: map<int, real>, k: int, v: real)
    ensures (a + b)[k := v] == a + b[k := v]
  {
  }

  // ---------------------------------------------------------------------
  // G2_TransformSurfaces

  /** Every slot of the subtree under `s` is still empty. */
  ghost predicate EmptyBelow(m: Mesh, slots: seq<int>, s: int)
    requires MeshWF(m) && |slots| == |m.names|
  {
    forall t :: 0 <= t < |slots| && IsAncestorOrSelf(m, s, t) ==> slots[t] == 0
  }

  /** A surface under child `k` of `s` is under `s`, is not `s`, and is not
      marked by the walks from the earlier children. */
  lemma ChildSubtreeApart(m: Mesh, slist: seq<SurfaceInfo>, rule: WalkRule, s: int, k: int, t: int)
    requires MeshWF(m) && ValidSurface(m, s) && ValidSurface(m, t) && 0 <= k < |m.children[s]|
    requires IsAncestorOrSelf(m, m.children[s][k], t)
    ensures IsAncestorOrSelf(m, s, t) && t != s
    ensures t !in VisitAll(m, slist, rule, m.children[s][..k], m.rank[s])
  {
    var kids := m.children[s];
    AncestorRank(m, kids[k], t);
    ChildAncestor(m, s, kids[k], t);
    VisitAllMember(m, slist, rule, kids[..k], m.rank[s], t);
    if t in VisitAll(m, slist, rule, kids[..k], m.rank[s]) {
      var j :| 0 <= j < k && t in Visit(m, slist, rule, kids[..k][j]);
      VisitInSubtree(m, slist, rule, kids[j], t);
      SiblingSubtreesDisjoint(m, s, j, k, t);
      assert false;
    }
  }

  lemma {:induction false} ChildAncestor(m: Mesh, s: int, c: int, t: int)
    requires MeshWF(m) && ValidSurface(m, s) && ValidSurface(m, c) && ValidSurface(m, t)
    requires m.parent[c] == s && IsAncestorOrSelf(m, c, t)
    ensures IsAncestorOrSelf(m, s, t)
    decreases |m.names| - m.rank[t]
  {
    if t != c {
      ChildAncestor(m, s, c, m.parent[t]);
    }
  }

  /**
   * G2_TransformSurfaces: walks the hierarchy from `surfaceNum` under the
   * transform rule, transforming each surface whose effective flags are
   * all clear.  On a second pass in the same frame a surface whose slot is
   * already set ends the walk there.  The walk writes only slots of the
   * surfaces it marks; when it completes and that second-pass skip cannot
   * fire, the set slots are exactly the old ones plus the marked surfaces.
   */
  method TransformSurfaces(surfaceNum: int, rootList: seq<SurfaceInfo>, md: Model, lod: int, scale: Vec3,
                           arena: Arena, transformedVerts: array<int>, secondTimeAround: bool)
    returns (ok: bool)
    requires ModelWF(md) && 0 <= lod < |md.lods| && ValidSurface(md.mesh, surfaceNum)
    requires arena.Valid() && transformedVerts.Length == NumSurfaces(md.mesh)
    modifies arena`offset, arena`floats, transformedVerts
    ensures arena.Valid() && arena.offset >= old(arena.offset)
    ensures forall t :: 0 <= t < transformedVerts.Length && transformedVerts[t] != old(transformedVerts[t]) ==>
              t in Visit(md.mesh, rootList, TransformRule, surfaceNum)
    ensures ok && (!secondTimeAround || EmptyBelow(md.mesh, old(transformedVerts[..]), surfaceNum)) ==>
              forall t :: 0 <= t < transformedVerts.Length ==>
                (transformedVerts[t] != 0 <==>
                 old(transformedVerts[t]) != 0 || t in Visit(md.mesh, rootList, TransformRule, surfaceNum))
    decreases md.mesh.rank[surfaceNum], 2
  {
    var m := md.mesh;
    var surfOverride := FindOverrideSurface(surfaceNum, rootList);
    var offFlags := m.defaultFlags[surfaceNum];
    if surfOverride.Some? {
      offFlags := rootList[surfOverride.value].offFlags;
    }
    assert offFlags == EffectiveFlags(m, rootList, surfaceNum);
    ghost var own: set<int> := if Marks(TransformRule, offFlags) then {surfaceNum} else {};
    ghost var below := if Stops(TransformRule, offFlags) then {}
                       else VisitAll(m, rootList, TransformRule, m.children[surfaceNum], m.rank[surfaceNum]);
    assert Visit(m, rootList, TransformRule, surfaceNum) == own + below;
    if offFlags == 0 {
      if secondTimeAround && transformedVerts[surfaceNum] != 0 {
        return true;
      }
      ok := TransformEachSurface(md.lods[lod][surfaceNum], scale, arena, transformedVerts);
      if !ok {
        return false;
      }
    }
    if offFlags & NODESCENDANTS != 0 {
      return true;
    }
    ok := TransformChildren(surfaceNum, rootList, md, lod, scale, arena, transformedVerts, secondTimeAround);
  }

  /** Every slot strictly below `s` is still empty. */
  ghost predicate EmptyUnder(m: Mesh, slots: seq<int>, s: int)
    requires MeshWF(m) && |slots| == |m.names|
  {
    forall t :: 0 <= t < |slots| && t != s && IsAncestorOrSelf(m, s, t) ==> slots[t] == 0
  }

  /** The loop of G2_TransformSurfaces over the children of `s`, in order. */
  method TransformChildren(s: int, rootList: seq<SurfaceInfo>, md: Model, lod: int, scale: Vec3,
                           arena: Arena, transformedVerts: array<int>, secondTimeAround: bool)
    returns (ok: bool)
    requires ModelWF(md) && 0 <= lod < |md.lods| && ValidSurface(md.mesh, s)
    requires arena.Valid() && transformedVerts.Length == NumSurfaces(md.mesh)
    modifies arena`offset, arena`floats, transformedVerts
    ensures arena.Valid() && arena.offset >= old(arena.offset)
    ensures forall t :: 0 <= t < transformedVerts.Length && transformedVerts[t] != old(transformedVerts[t]) ==>
              t in VisitAll(md.mesh, rootList, TransformRule, md.mesh.children[s], md.mesh.rank[s])
    ensures ok && (!secondTimeAround || EmptyUnder(md.mesh, old(transformedVerts[..]), s)) ==>
              forall t :: 0 <= t < transformedVerts.Length ==>
                (transformedVerts[t] != 0 <==>
                 old(transformedVerts[t]) != 0 ||
                 t in VisitAll(md.mesh, rootList, TransformRule, md.mesh.children[s], md.mesh.rank[s]))
    decreases md.mesh.rank[s], 1
  {
    var m := md.mesh;
    var kids := m.children[s];
    ghost var orig := transformedVerts[..];
    for i := 0 to |kids|
      invariant arena.Valid() && arena.offset >= old(arena.offset)
      invariant ChangedWithin(orig, transformedVerts[..], ChildWalks(m, rootList, s, i))
      invariant (!secondTimeAround || EmptyUnder(m, orig, s)) ==> MarkedExactly(orig, transformedVerts[..], ChildWalks(m, rootList, s, i))
    {
      ok := TransformChild(s, i, rootList, md, lod, scale, arena, transformedVerts, secondTimeAround, orig);
      if !ok {
        ChildWalksPrefix(m, rootList, s, i + 1);
        ChangedWiden(orig, transformedVerts[..], ChildWalks(m, rootList, s, i + 1), ChildWalks(m, rootList, s, |kids|));
        return false;
      }
    }
    return true;
  }

  /** One pass of the loop of G2_TransformSurfaces over the children of `s`:
      the walk from child `i`. */
  method TransformChild(s: int, i: int, rootList: seq<SurfaceInfo>, md: Model, lod: int, scale: Vec3,
                        arena: Arena, transformedVerts: array<int>, secondTimeAround: bool, ghost orig: seq<int>)
    returns (ok: bool)
    requires ModelWF(md) && 0 <= lod < |md.lods| && ValidSurface(md.mesh, s) && 0 <= i < |md.mesh.children[s]|
    requires arena.Valid() && transformedVerts.Length == NumSurfaces(md.mesh)
    requires ChangedWithin(orig, transformedVerts[..], ChildWalks(md.mesh, rootList, s, i))
    requires (!secondTimeAround || EmptyUnder(md.mesh, orig, s)) ==>
               MarkedExactly(orig, transformedVerts[..], ChildWalks(md.mesh, rootList, s, i))
    modifies arena`offset, arena`floats, transformedVerts
    ensures arena.Valid() && arena.offset >= old(arena.offset)
    ensures ChangedWithin(orig, transformedVerts[..], ChildWalks(md.mesh, rootList, s, i + 1))
    ensures ok && (!secondTimeAround || EmptyUnder(md.mesh, orig, s)) ==>
              MarkedExactly(orig, transformedVerts[..], ChildWalks(md.mesh, rootList, s, i + 1))
    decreases md.mesh.rank[s], 0
  {
    var m := md.mesh;
    var kids := m.children[s];
    ghost var before := transformedVerts[..];
    ghost var done := ChildWalks(m, rootList, s, i);
    ghost var walk := Visit(m, rootList, TransformRule, kids[i]);
    ChildWalksStep(m, rootList, s, i);
    if secondTimeAround && EmptyUnder(m, orig, s) {
      forall t | 0 <= t < transformedVerts.Length && IsAncestorOrSelf(m, kids[i], t)
        ensures transformedVerts[t] == 0
      {
        ChildSubtreeApart(m, rootList, TransformRule, s, i, t);
        assert before[t] == 0;
      }
    }
    ok := TransformSurfaces(kids[i], rootList, md, lod, scale, arena, transformedVerts, secondTimeAround);
    ChangedStep(orig, before, transformedVerts[..], done, walk);
    if ok && (!secondTimeAround || EmptyUnder(m, orig, s)) {
      MarkedStep(orig, before, transformedVerts[..], done, walk);
    }
  }

  /** What the transform walks from the first `i` children of `s` mark. */
  ghost function ChildWalks(m: Mesh, slist: seq<SurfaceInfo>, s: int, i: int): (r: set<int>)
    requires MeshWF(m) && ValidSurface(m, s) && 0 <= i <= |m.children[s]|
    ensures i == |m.children[s]| ==> r == VisitAll(m, slist, TransformRule, m.children[s], m.rank[s])
  {
    assert i == |m.children[s]| ==> m.children[s][..i] == m.children[s];
    VisitAll(m, slist, TransformRule, m.children[s][..i], m.rank[s])
  }

  lemma ChildWalksStep(m: Mesh, slist: seq<SurfaceInfo>, s: int, i: int)
    requires MeshWF(m) && ValidSurface(m, s) && 0 <= i < |m.children[s]|
    ensures ChildWalks(m, slist, s, i + 1) == ChildWalks(m, slist, s, i) + Visit(m, slist, TransformRule, m.children[s][i])
  {
    assert m.children[s][..i + 1][..i] == m.children[s][..i];
  }

  lemma ChildWalksPrefix(m: Mesh, slist: seq<SurfaceInfo>, s: int, i: int)
    requires MeshWF(m) && ValidSurface(m, s) && 0 <= i <= |m.children[s]|
    ensures ChildWalks(m, slist, s, i) <= ChildWalks(m, slist, s, |m.children[s]|)
  {
    VisitAllPrefix(m, slist, TransformRule, m.children[s], i, m.rank[s]);
  }

  /** Every slot that differs between `orig` and `cur` is in `marks`. */
  ghost predicate ChangedWithin(orig: seq<int>, cur: seq<int>, marks: set<int>)
  {
    |orig| == |cur| && forall t :: 0 <= t < |cur| && cur[t] != orig[t] ==> t in marks
  }

  /** A slot of `cur` is set exactly when it was set in `orig` or is in `marks`. */
  ghost predicate MarkedExactly(orig: seq<int>, cur: seq<int>, marks: set<int>)
  {
    |orig| == |cur| && forall t :: 0 <= t < |cur| ==> (cur[t] != 0 <==> orig[t] != 0 || t in marks)
  }

  lemma ChangedWiden(orig: seq<int>, cur: seq<int>, marks: set<int>, more: set<int>)
    requires ChangedWithin(orig, cur, marks) && marks <= more
    ensures ChangedWithin(orig, cur, more)
  {
  }

  /** Slots changed first within `done`, then within `walk`, changed within both. */
  lemma ChangedStep(orig: seq<int>, before: seq<int>, after: seq<int>, done: set<int>, walk: set<int>)
    requires ChangedWithin(orig, before, done)
    requires |after| == |before| && forall t :: 0 <= t < |after| && after[t] != before[t] ==> t in walk
    ensures ChangedWithin(orig, after, done + walk)
  {
  }

  /** Slots set exactly where they were or `done` marks, then exactly where
      they were or `walk` marks, are set exactly where they were or either marks. */
  lemma MarkedStep(orig: seq<int>, before: seq<int>, after: seq<int>, done: set<int>, walk: set<int>)
    requires MarkedExactly(orig, before, done)
    requires |after| == |before| && forall t :: 0 <= t < |after| ==> (after[t] != 0 <==> before[t] != 0 || t in walk)
    ensures MarkedExactly(orig, after, done + walk)
  {
  }

  /** The walks from a prefix of the children mark no more than the walks from all of them. */
  lemma VisitAllPrefix(m: Mesh, slist: seq<SurfaceInfo>, rule: WalkRule, kids: seq<int>, i: int, bound: nat)
    requires MeshWF(m) && 0 <= i <= |kids|
    requires forall k :: 0 <= k < |kids| ==> ValidSurface(m, kids[k]) && m.rank[kids[k]] < bound
    ensures VisitAll(m, slist, rule, kids[..i], bound) <= VisitAll(m, slist, rule, kids, bound)
  {
    forall x | x in VisitAll(m, slist, rule, kids[..i], bound)
      ensures x in VisitAll(m, slist, rule, kids, bound)
    {
      VisitAllMember(m, slist, rule, kids[..i], bound, x);
      var k :| 0 <= k < i && x in Visit(m, slist, rule, kids[..i][k]);
      VisitAllMember(m, slist, rule, kids, bound, x);
    }
  }

  /** A second pass over a freshly emptied slot array handles the same
      surfaces as a first pass: the skip never fires. */
  lemma SecondPassOnEmptySlots(m: Mesh, s: int)
    requires MeshWF(m) && ValidSurface(m, s)
    ensures EmptyBelow(m, seq(|m.names|, _ => 0), s)
  {
  }

  // ---------------------------------------------------------------------
  // G2_TransformModel

  /** A zero scale component means 1. */
  function CorrectScale(scale: Vec3): (r: Vec3)
    ensures r.x == (if scale.x == 0.0 then 1.0 else scale.x)
    ensures r.y == (if scale.y == 0.0 then 1.0 else scale.y)
    ensures r.z == (if scale.z == 0.0 then 1.0 else scale.z)
  {
    Vec3(if scale.x == 0.0 then 1.0 else scale.x,
         if scale.y == 0.0 then 1.0 else scale.y,
         if scale.z == 0.0 then 1.0 else scale.z)
  }

  /** Correcting twice is correcting once, and no component of the result is zero. */
  lemma CorrectScaleIdempotent(scale: Vec3)
    ensures CorrectScale(CorrectScale(scale)) == CorrectScale(scale)
    ensures CorrectScale(scale).x != 0.0 && CorrectScale(scale).y != 0.0 && CorrectScale(scale).z != 0.0
  {
  }

  /** What G2_TransformModel leaves in the slot array of a processed instance. */
  ghost predicate TransformedAsWalked(m: Mesh, slist: seq<SurfaceInfo>, root: int, tv: seq<int>)
    requires MeshWF(m) && ValidSurface(m, root)
  {
    |tv| == NumSurfaces(m) &&
    forall t :: 0 <= t < |tv| ==> (tv[t] != 0 <==> t in Visit(m, slist, TransformRule, root))
  }

  /**
   * G2_TransformModel: for every instance in use, records the frame, gives
   * it a fresh empty slot array from the arena and runs the transform walk
   * from its root at the LOD G2_DecideTraceLod picks.  Instances with model
   * index -1 are left alone.  A failed allocation abandons the pass.
   */
  method TransformModel(ghoul2: seq<Ghoul2Info>, frameNum: int, scale: Vec3, arena: Arena, useLod: int)
    returns (ok: bool)
    requires |ghoul2| > 0 && Distinct(ghoul2) && arena.Valid()
    requires forall i :: 0 <= i < |ghoul2| && ghoul2[i].mModelindex != -1 ==> useLod >= 0 || ghoul2[i].mLodBias >= 0
    requires forall i :: 0 <= i < |ghoul2| ==>
               ModelWF(ghoul2[i].model) && ValidSurface(ghoul2[i].model.mesh, ghoul2[i].mSurfaceRoot)
    modifies arena`offset, arena`floats
    modifies ghoul2`mMeshFrameNum, ghoul2`mTransformedVertsArray
    ensures arena.Valid()
    ensures forall i :: 0 <= i < |ghoul2| ==>
              ghoul2[i].mModelindex == old(ghoul2[i].mModelindex) && ghoul2[i].mSlist == old(ghoul2[i].mSlist) &&
              ghoul2[i].mSurfaceRoot == old(ghoul2[i].mSurfaceRoot)
    ensures ok ==> forall i :: 0 <= i < |ghoul2| ==>
              if old(ghoul2[i].mModelindex) == -1 then
                ghoul2[i].mMeshFrameNum == old(ghoul2[i].mMeshFrameNum) &&
                ghoul2[i].mTransformedVertsArray == old(ghoul2[i].mTransformedVertsArray)
              else
                ghoul2[i].mMeshFrameNum == frameNum && fresh(ghoul2[i].mTransformedVertsArray) &&
                MeshWF(ghoul2[i].model.mesh) && ValidSurface(ghoul2[i].model.mesh, old(ghoul2[i].mSurfaceRoot)) &&
                TransformedAsWalked(ghoul2[i].model.mesh, old(ghoul2[i].mSlist), old(ghoul2[i].mSurfaceRoot),
                                    ghoul2[i].mTransformedVertsArray[..])
  {
    var secondTimeAround := ghoul2[0].mMeshFrameNum == frameNum;
    var correctScale := CorrectScale(scale);
    for i := 0 to |ghoul2|
      invariant arena.Valid()
      invariant forall k :: 0 <= k < |ghoul2| ==>
                  ghoul2[k].mModelindex == old(ghoul2[k].mModelindex) && ghoul2[k].mSlist == old(ghoul2[k].mSlist) &&
                  ghoul2[k].mSurfaceRoot == old(ghoul2[k].mSurfaceRoot) && ghoul2[k].mLodBias == old(ghoul2[k].mLodBias)
      invariant forall k :: i <= k < |ghoul2| ==>
                  ghoul2[k].mMeshFrameNum == old(ghoul2[k].mMeshFrameNum) &&
                  ghoul2[k].mTransformedVertsArray == old(ghoul2[k].mTransformedVertsArray)
      invariant forall k :: 0 <= k < i ==>
                  if old(ghoul2[k].mModelindex) == -1 then
                    ghoul2[k].mMeshFrameNum == old(ghoul2[k].mMeshFrameNum) &&
                    ghoul2[k].mTransformedVertsArray == old(ghoul2[k].mTransformedVertsArray)
                  else
                    ghoul2[k].mMeshFrameNum == frameNum && fresh(ghoul2[k].mTransformedVertsArray) &&
                    MeshWF(ghoul2[k].model.mesh) && ValidSurface(ghoul2[k].model.mesh, old(ghoul2[k].mSurfaceRoot)) &&
                    TransformedAsWalked(ghoul2[k].model.mesh, old(ghoul2[k].mSlist), old(ghoul2[k].mSurfaceRoot),
                                        ghoul2[k].mTransformedVertsArray[..])
    {
      if ghoul2[i].mModelindex != -1 {
        ok := TransformInstance(ghoul2[i], frameNum, correctScale, arena, useLod, secondTimeAround);
        if !ok {
          return false;
        }
      }
    }
    return true;
  }

  /** The body of the instance loop of G2_TransformModel. */
  method TransformInstance(g: Ghoul2Info, frameNum: int, scale: Vec3, arena: Arena, useLod: int, secondTimeAround: bool)
    returns (ok: bool)
    requires ModelWF(g.model) && ValidSurface(g.model.mesh, g.mSurfaceRoot) && arena.Valid()
    requires useLod >= 0 || g.mLodBias >= 0
    modifies g`mMeshFrameNum, g`mTransformedVertsArray, arena`offset, arena`floats
    ensures arena.Valid() && g.mMeshFrameNum == frameNum
    ensures ok ==> fresh(g.mTransformedVertsArray) && TransformedAsWalked(g.model.mesh, g.mSlist, g.mSurfaceRoot, g.mTransformedVertsArray[..])
  {
    var m := g.model.mesh;
    g.mMeshFrameNum := frameNum;
    var lod := DecideTraceLod(g.mLodBias, useLod, |g.model.lods|);
    var addr := arena.Alloc(SLOT_BYTES * NumSurfaces(m));
    if addr == 0 {
      return false;
    }
    var slots := new int[NumSurfaces(m)](_ => 0);
    g.mTransformedVertsArray := slots;
    assert EmptyBelow(m, slots[..], g.mSurfaceRoot);
    ok := TransformSurfaces(g.mSurfaceRoot, g.mSlist, g.model, lod, scale, arena, slots, secondTimeAround);
  }
}
