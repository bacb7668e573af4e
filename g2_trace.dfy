// The collision trace of G2_misc.cpp: the two per-surface tracers, which
// fill the fixed array of collision records, and the walks over surfaces
// and model instances that drive them.  Floating-point geometry (the segment
// and triangle test, the radius basis, world transforms) is given as input.
module G2Trace {
  import opened Text
  import opened Ghoul2Types
  import opened G2Lookup
  import opened G2Misc

  /** Size of the collision record array (MAX_G2_COLLISIONS). */
  const MAX_G2_COLLISIONS: int := 16

  /** Capacity of the static per-vertex flag buffer of the radius trace. */
  const MAX_GORE_VERTS: int := 3000

  /** Record flags. */
  const G2_BACKFACE: int := 0
  const G2_FRONTFACE: int := 1

  /** Instance flag: excluded from collision (GHOUL2_NOCOLLIDE). */
  const GHOUL2_NOCOLLIDE: bv32 := 0x1

  /** CollisionRecord_t; a record with entity number -1 is free. */
  datatype CollisionRecord = CollisionRecord(
    entityNum: int,
    polyIndex: int,
    surfaceIndex: int,
    modelIndex: int,
    flags: int,
    material: int,
    location: int,
    distance: real,
    position: Vec3,
    normal: Vec3,
    baryI: real,
    baryJ: real)

  predicate IsFreeRecord(c: CollisionRecord) { c.entityNum == -1 }

  /** First free record at or after `i`. */
  function FirstFreeRecordFrom(coll: seq<CollisionRecord>, i: nat): (r: Option<nat>)
    requires i <= |coll|
    ensures r.Some? ==> i <= r.value < |coll| && IsFreeRecord(coll[r.value]) &&
                        forall k :: i <= k < r.value ==> !IsFreeRecord(coll[k])
    ensures r.None? ==> forall k :: i <= k < |coll| ==> !IsFreeRecord(coll[k])
    decreases |coll| - i
  {
    if i == |coll| then None
    else if IsFreeRecord(coll[i]) then Some(i)
    else FirstFreeRecordFrom(coll, i + 1)
  }

  function FirstFreeRecord(coll: seq<CollisionRecord>): Option<nat>
  {
    FirstFreeRecordFrom(coll, 0)
  }

  // ---------------------------------------------------------------------
  // The radius trace's half-space masks

  /** The six per-vertex tests of the radius trace, in bit order:
      s > 0, s < 1, t > 0, t < 1, u > 0, u < 1. */
  datatype VertexSide = VertexSide(sPos: bool, sBelow1: bool, tPos: bool, tBelow1: bool, uPos: bool, uBelow1: bool)

  function Holds(v: VertexSide, k: int): bool
    requires 0 <= k < 6
  {
    if k == 0 then v.sPos
    else if k == 1 then v.sBelow1
    else if k == 2 then v.tPos
    else if k == 3 then v.tBelow1
    else if k == 4 then v.uPos
    else v.uBelow1
  }

  function BitOf(k: int): bv32
    requires 0 <= k < 6
  {
    if k == 0 then 1 else if k == 1 then 2 else if k == 2 then 4
    else if k == 3 then 8 else if k == 4 then 16 else 32
  }

  /** The bits of the tests that pass. */
  function PassFlags(v: VertexSide): bv32
  {
    (if v.sPos then 1 else 0) | (if v.sBelow1 then 2 else 0) |
    (if v.tPos then 4 else 0) | (if v.tBelow1 then 8 else 0) |
    (if v.uPos then 16 else 0) | (if v.uBelow1 then 32 else 0)
  }

  /** The flags the radius trace keeps per vertex: the complement of the passing bits. */
  function GoreFlags(v: VertexSide): bv32
  {
    !PassFlags(v)
  }

  /** Bit `k` of a vertex's flags is set exactly when test `k` fails there. */
  lemma GoreFlagsBit(v: VertexSide, k: int)
    requires 0 <= k < 6
    ensures GoreFlags(v) & BitOf(k) != 0 <==> !Holds(v, k)
  {
  }

  lemma AndBit(a: bv32, b: bv32, k: int)
    requires 0 <= k < 6
    ensures (a & b) & BitOf(k) != 0 <==> a & BitOf(k) != 0 && b & BitOf(k) != 0
  {
  }

  /** A value within the low six bits is nonzero exactly when one of them is set. */
  lemma NonzeroLowBits(x: bv32)
    requires x & 63 == x
    ensures x != 0 <==> exists k :: 0 <= k < 6 && x & BitOf(k) != 0
  {
    if x != 0 {
      if x & 1 != 0 { assert x & BitOf(0) != 0; }
      else if x & 2 != 0 { assert x & BitOf(1) != 0; }
      else if x & 4 != 0 { assert x & BitOf(2) != 0; }
      else if x & 8 != 0 { assert x & BitOf(3) != 0; }
      else if x & 16 != 0 { assert x & BitOf(4) != 0; }
      else { assert x & BitOf(5) != 0; }
    }
  }

  /** The surface mask after the first `n` vertices: 63 and-ed with their flags. */
  function SurfaceMask(sides: seq<VertexSide>, n: nat): (r: bv32)
    requires n <= |sides|
    ensures r & 63 == r
  {
    if n == 0 then 63 else SurfaceMask(sides, n - 1) & GoreFlags(sides[n - 1])
  }

  lemma {:induction false} SurfaceMaskBit(sides: seq<VertexSide>, n: nat, k: int)
    requires n <= |sides| && 0 <= k < 6
    ensures SurfaceMask(sides, n) & BitOf(k) != 0 <==> forall j :: 0 <= j < n ==> !Holds(sides[j], k)
  {
    if n > 0 {
      SurfaceMaskBit(sides, n - 1, k);
      AndBit(SurfaceMask(sides, n - 1), GoreFlags(sides[n - 1]), k);
      GoreFlagsBit(sides[n - 1], k);
    }
  }

  /** Test `k` fails at every vertex. */
  predicate FailsEverywhere(sides: seq<VertexSide>, k: int)
    requires 0 <= k < 6
  {
    forall j :: 0 <= j < |sides| ==> !Holds(sides[j], k)
  }

  /** The radius trace rejects a surface exactly when one of the six tests
      fails at every vertex. */
  lemma SurfaceRejectedIff(sides: seq<VertexSide>)
    ensures SurfaceMask(sides, |sides|) != 0 <==> exists k :: 0 <= k < 6 && FailsEverywhere(sides, k)
  {
    var x := SurfaceMask(sides, |sides|);
    NonzeroLowBits(x);
    forall k | 0 <= k < 6
      ensures x & BitOf(k) != 0 <==> FailsEverywhere(sides, k)
    {
      SurfaceMaskBit(sides, |sides|, k);
    }
  }

  /** The triangle mask: 63 and-ed with the flags of its three corners. */
  function TriangleMask(sides: seq<VertexSide>, tri: Triangle): (r: bv32)
    requires 0 <= tri.a < |sides| && 0 <= tri.b < |sides| && 0 <= tri.c < |sides|
  {
    63 & GoreFlags(sides[tri.a]) & GoreFlags(sides[tri.b]) & GoreFlags(sides[tri.c])
  }

  /** A triangle is skipped exactly when one test fails at all three corners. */
  lemma TriangleSkippedIff(sides: seq<VertexSide>, tri: Triangle)
    requires 0 <= tri.a < |sides| && 0 <= tri.b < |sides| && 0 <= tri.c < |sides|
    ensures TriangleMask(sides, tri) != 0 <==>
            exists k :: 0 <= k < 6 && !Holds(sides[tri.a], k) && !Holds(sides[tri.b], k) && !Holds(sides[tri.c], k)
  {
    var x := TriangleMask(sides, tri);
    NonzeroLowBits(x);
    forall k | 0 <= k < 6
      ensures x & BitOf(k) != 0 <==> !Holds(sides[tri.a], k) && !Holds(sides[tri.b], k) && !Holds(sides[tri.c], k)
    {
      TriangleMaskBit(sides, tri, k);
    }
  }

  /** Bit `k` of a triangle's mask is set exactly when test `k` fails at its three corners. */
  lemma TriangleMaskBit(sides: seq<VertexSide>, tri: Triangle, k: int)
    requires 0 <= tri.a < |sides| && 0 <= tri.b < |sides| && 0 <= tri.c < |sides| && 0 <= k < 6
    ensures TriangleMask(sides, tri) & BitOf(k) != 0 <==>
            !Holds(sides[tri.a], k) && !Holds(sides[tri.b], k) && !Holds(sides[tri.c], k)
  {
    var corners := [sides[tri.a], sides[tri.b], sides[tri.c]];
    TriangleAsSurface(sides, tri);
    SurfaceMaskBit(corners, 3, k);
    FailsAtThree(corners, k);
  }

  lemma FailsAtThree(corners: seq<VertexSide>, k: int)
    requires |corners| == 3 && 0 <= k < 6
    ensures (forall j :: 0 <= j < 3 ==> !Holds(corners[j], k)) <==>
            !Holds(corners[0], k) && !Holds(corners[1], k) && !Holds(corners[2], k)
  {
    if !Holds(corners[0], k) && !Holds(corners[1], k) && !Holds(corners[2], k) {
      forall j | 0 <= j < 3 ensures !Holds(corners[j], k) {
        if j == 0 { } else if j == 1 { } else { }
      }
    }
  }

  /** A triangle's mask is the surface mask of its three corners. */
  lemma TriangleAsSurface(sides: seq<VertexSide>, tri: Triangle)
    requires 0 <= tri.a < |sides| && 0 <= tri.b < |sides| && 0 <= tri.c < |sides|
    ensures SurfaceMask([sides[tri.a], sides[tri.b], sides[tri.c]], 3) == TriangleMask(sides, tri)
  {
    var corners := [sides[tri.a], sides[tri.b], sides[tri.c]];
    assert SurfaceMask(corners, 1) == 63 & GoreFlags(sides[tri.a]);
    assert SurfaceMask(corners, 2) == 63 & GoreFlags(sides[tri.a]) & GoreFlags(sides[tri.b]);
  }

  // ---------------------------------------------------------------------
  // Per-surface trace inputs

  /** The world-space results the radius trace computes for a triangle. */
  datatype RadiusGeometry = RadiusGeometry(normal: Vec3, distance: real, position: Vec3)

  /** The outcome of the segment and triangle test for one triangle;
      `front` stands for a positive facing value. */
  datatype TriHit = Miss | Hit(front: bool, distance: real, position: Vec3, normal: Vec3, baryI: real, baryJ: real)

  /** What the floating-point parts of the tracers produce for one surface. */
  datatype SurfaceTrace = SurfaceTrace(sides: seq<VertexSide>, radius: seq<RadiusGeometry>, point: seq<TriHit>)

  ghost predicate SurfaceTraceWF(st: SurfaceTrace, ls: LodSurface)
  {
    |st.sides| == ls.numVerts && |st.radius| == |ls.triangles| && |st.point| == |ls.triangles| &&
    forall j :: 0 <= j < |ls.triangles| ==>
      0 <= ls.triangles[j].a < ls.numVerts && 0 <= ls.triangles[j].b < ls.numVerts &&
      0 <= ls.triangles[j].c < ls.numVerts
  }

  /** Who a record belongs to. */
  datatype HitOwner = HitOwner(entNum: int, modelIndex: int, surfaceIndex: int)

  /** The fields the radius trace sets before it may return. */
  function RadiusBasic(slot: CollisionRecord, who: HitOwner, j: int, g: RadiusGeometry): CollisionRecord
  {
    slot.(polyIndex := j, entityNum := who.entNum, surfaceIndex := who.surfaceIndex, modelIndex := who.modelIndex,
          flags := G2_FRONTFACE, normal := g.normal, material := 0, location := 0)
  }

  /** The complete radius-trace record. */
  function RadiusFull(slot: CollisionRecord, who: HitOwner, j: int, g: RadiusGeometry): CollisionRecord
  {
    RadiusBasic(slot, who, j, g).(distance := g.distance, position := g.position, baryI := 0.0, baryJ := 0.0)
  }

  /** The point-trace record for a hit. */
  function PointRecord(slot: CollisionRecord, who: HitOwner, j: int, h: TriHit): CollisionRecord
    requires h.Hit?
  {
    slot.(polyIndex := j, entityNum := who.entNum, surfaceIndex := who.surfaceIndex, modelIndex := who.modelIndex,
          flags := if h.front then G2_FRONTFACE else G2_BACKFACE,
          distance := h.distance, position := h.position, normal := h.normal,
          material := 0, location := 0, baryI := h.baryI, baryJ := h.baryJ)
  }

  // ---------------------------------------------------------------------
  // G2_RadiusTracePolys

  /** The triangle loop of the radius trace from triangle `j` on. */
  function RadiusFrom(ls: LodSurface, st: SurfaceTrace, who: HitOwner, returnOnHit: bool,
                      coll: seq<CollisionRecord>, j: nat): (seq<CollisionRecord>, bool)
    requires SurfaceTraceWF(st, ls) && j <= |ls.triangles|
    decreases |ls.triangles| - j
  {
    if j == |ls.triangles| then (coll, false)
    else if TriangleMask(st.sides, ls.triangles[j]) != 0 then RadiusFrom(ls, st, who, returnOnHit, coll, j + 1)
    else match FirstFreeRecord(coll)
      case None => (coll, true)
      case Some(i) =>
        if returnOnHit then (coll[i := RadiusBasic(coll[i], who, j, st.radius[j])], true)
        else RadiusFrom(ls, st, who, returnOnHit, coll[i := RadiusFull(coll[i], who, j, st.radius[j])], j + 1)
  }

  /** The records and result of G2_RadiusTracePolys. */
  function RadiusTrace(ls: LodSurface, st: SurfaceTrace, who: HitOwner, returnOnHit: bool,
                       coll: seq<CollisionRecord>): (seq<CollisionRecord>, bool)
    requires SurfaceTraceWF(st, ls)
  {
    if SurfaceMask(st.sides, |st.sides|) != 0 then (coll, false)
    else RadiusFrom(ls, st, who, returnOnHit, coll, 0)
  }

  /** The index of a triangle's corner flags in the per-vertex buffer. */
  method RadiusTracePolys(ls: LodSurface, st: SurfaceTrace, collRecMap: array<CollisionRecord>,
                          who: HitOwner, returnOnHit: bool) returns (r: bool)
    requires SurfaceTraceWF(st, ls) && ls.numVerts <= MAX_GORE_VERTS
    requires collRecMap.Length == MAX_G2_COLLISIONS
    modifies collRecMap
    ensures (collRecMap[..], r) == RadiusTrace(ls, st, who, returnOnHit, old(collRecMap[..]))
  {
    var goreVerts := new bv32[ls.numVerts];
    var flags := MarkVertices(st.sides, goreVerts);
    if flags != 0 {
      return false;
    }
    r := RadiusTriangles(ls, st, goreVerts[..], collRecMap, who, returnOnHit);
  }

  /** The triangle loop of G2_RadiusTracePolys, given the per-vertex flags. */
  method RadiusTriangles(ls: LodSurface, st: SurfaceTrace, goreVerts: seq<bv32>, collRecMap: array<CollisionRecord>,
                         who: HitOwner, returnOnHit: bool) returns (r: bool)
    requires SurfaceTraceWF(st, ls) && collRecMap.Length == MAX_G2_COLLISIONS
    requires FlagsMarked(goreVerts, st.sides, |st.sides|)
    modifies collRecMap
    ensures (collRecMap[..], r) == RadiusFrom(ls, st, who, returnOnHit, old(collRecMap[..]), 0)
  {
    ghost var want := RadiusFrom(ls, st, who, returnOnHit, old(collRecMap[..]), 0);
    for j := 0 to |ls.triangles|
      invariant want == RadiusFrom(ls, st, who, returnOnHit, collRecMap[..], j)
    {
      var stop := RadiusTriangle(ls, st, goreVerts, collRecMap, who, returnOnHit, j);
      if stop {
        return true;
      }
    }
    return false;
  }

  /** One pass of the triangle loop of G2_RadiusTracePolys: `stop` says the
      loop returns true here, and otherwise the rest of the loop is unchanged. */
  method RadiusTriangle(ls: LodSurface, st: SurfaceTrace, goreVerts: seq<bv32>, collRecMap: array<CollisionRecord>,
                        who: HitOwner, returnOnHit: bool, j: nat) returns (stop: bool)
    requires SurfaceTraceWF(st, ls) && collRecMap.Length == MAX_G2_COLLISIONS && j < |ls.triangles|
    requires FlagsMarked(goreVerts, st.sides, |st.sides|)
    modifies collRecMap
    ensures stop ==> (collRecMap[..], true) == RadiusFrom(ls, st, who, returnOnHit, old(collRecMap[..]), j)
    ensures !stop ==> RadiusFrom(ls, st, who, returnOnHit, collRecMap[..], j + 1)
                      == RadiusFrom(ls, st, who, returnOnHit, old(collRecMap[..]), j)
  {
    var tri := ls.triangles[j];
    var triFlags := 63 & goreVerts[tri.a] & goreVerts[tri.b] & goreVerts[tri.c];
    CornerFlags(st.sides, goreVerts, tri);
    ghost var c := collRecMap[..];
    if triFlags != 0 {
      return false;
    }
    var slot := FillRadiusRecord(collRecMap, who, j, st.radius[j], returnOnHit);
    return slot == -1 || returnOnHit;
  }

  /** The record part of one pass of the triangle loop of G2_RadiusTracePolys:
      the first free record, if any, gets the hit, in full unless returnOnHit. */
  method FillRadiusRecord(collRecMap: array<CollisionRecord>, who: HitOwner, j: int, g: RadiusGeometry,
                          returnOnHit: bool) returns (slot: int)
    requires collRecMap.Length == MAX_G2_COLLISIONS
    modifies collRecMap
    ensures slot == match FirstFreeRecord(old(collRecMap[..])) case Some(i) => i case None => -1
    ensures slot == -1 ==> collRecMap[..] == old(collRecMap[..])
    ensures slot != -1 ==>
              collRecMap[..] == old(collRecMap[..])[slot := if returnOnHit then RadiusBasic(old(collRecMap[slot]), who, j, g)
                                                            else RadiusFull(old(collRecMap[slot]), who, j, g)]
  {
    slot := FindFreeRecord(collRecMap);
    if slot == -1 {
      return;
    }
    if returnOnHit {
      collRecMap[slot] := RadiusBasic(collRecMap[slot], who, j, g);
    } else {
      collRecMap[slot] := RadiusFull(collRecMap[slot], who, j, g);
    }
  }

  /** The triangle's flags read from the per-vertex buffer are its mask. */
  lemma CornerFlags(sides: seq<VertexSide>, goreVerts: seq<bv32>, tri: Triangle)
    requires FlagsMarked(goreVerts, sides, |sides|)
    requires 0 <= tri.a < |sides| && 0 <= tri.b < |sides| && 0 <= tri.c < |sides|
    ensures 63 & goreVerts[tri.a] & goreVerts[tri.b] & goreVerts[tri.c] == TriangleMask(sides, tri)
  {
  }

  /** The vertex loop of G2_RadiusTracePolys: the flags of every vertex go
      into the buffer, and their conjunction with 63 is returned. */
  method MarkVertices(sides: seq<VertexSide>, goreVerts: array<bv32>) returns (flags: bv32)
    requires goreVerts.Length == |sides|
    modifies goreVerts
    ensures flags == SurfaceMask(sides, |sides|)
    ensures FlagsMarked(goreVerts[..], sides, |sides|)
  {
    flags := 63;
    for j := 0 to |sides|
      invariant flags == SurfaceMask(sides, j)
      invariant FlagsMarked(goreVerts[..], sides, j)
    {
      var vflags := VertexFlags(sides[j]);
      assert SurfaceMask(sides, j + 1) == flags & vflags;
      flags := flags & vflags;
      ghost var before := goreVerts[..];
      goreVerts[j] := vflags;
      FlagsMarkedStep(before, sides, j);
      assert goreVerts[..] == before[j := GoreFlags(sides[j])];
    }
  }

  /** The first `n` entries of the buffer hold the flags of their vertices. */
  ghost predicate FlagsMarked(buf: seq<bv32>, sides: seq<VertexSide>, n: int)
  {
    |buf| == |sides| && 0 <= n <= |sides| && forall k :: 0 <= k < n ==> buf[k] == GoreFlags(sides[k])
  }

  lemma FlagsMarkedStep(buf: seq<bv32>, sides: seq<VertexSide>, j: int)
    requires FlagsMarked(buf, sides, j) && j < |sides|
    ensures FlagsMarked(buf[j := GoreFlags(sides[j])], sides, j + 1)
  {
  }

  /** The per-vertex part of the vertex loop of G2_RadiusTracePolys: the
      bits of the passing tests, complemented. */
  method VertexFlags(v: VertexSide) returns (vflags: bv32)
    ensures vflags == GoreFlags(v)
  {
    vflags := 0;
    if v.sPos { vflags := vflags | 1; }
    if v.sBelow1 { vflags := vflags | 2; }
    if v.tPos { vflags := vflags | 4; }
    if v.tBelow1 { vflags := vflags | 8; }
    if v.uPos { vflags := vflags | 16; }
    if v.uBelow1 { vflags := vflags | 32; }
    vflags := !vflags;
  }

  /** The record search loop both tracers share: the first free record, or -1. */
  method FindFreeRecord(collRecMap: array<CollisionRecord>) returns (slot: int)
    requires collRecMap.Length == MAX_G2_COLLISIONS
    ensures slot == match FirstFreeRecord(collRecMap[..]) case Some(i) => i case None => -1
  {
    for i := 0 to MAX_G2_COLLISIONS
      invariant FirstFreeRecordFrom(collRecMap[..], 0) == FirstFreeRecordFrom(collRecMap[..], i)
    {
      if collRecMap[i].entityNum == -1 {
        return i;
      }
    }
    return -1;
  }

  // ---------------------------------------------------------------------
  // G2_TracePolys

  /** The triangle loop of the point trace from triangle `j` on. */
  function PointFrom(ls: LodSurface, st: SurfaceTrace, who: HitOwner, returnOnHit: bool,
                     coll: seq<CollisionRecord>, j: nat): (seq<CollisionRecord>, bool)
    requires SurfaceTraceWF(st, ls) && j <= |ls.triangles|
    decreases |ls.triangles| - j
  {
    if j == |ls.triangles| then (coll, false)
    else if st.point[j].Miss? then PointFrom(ls, st, who, returnOnHit, coll, j + 1)
    else match FirstFreeRecord(coll)
      case None => PointFrom(ls, st, who, returnOnHit, coll, j + 1)
      case Some(i) =>
        var coll' := coll[i := PointRecord(coll[i], who, j, st.point[j])];
        if returnOnHit then (coll', true) else PointFrom(ls, st, who, returnOnHit, coll', j + 1)
  }

  /** G2_TracePolys: every hit triangle fills the first free record. */
  method TracePolys(ls: LodSurface, st: SurfaceTrace, collRecMap: array<CollisionRecord>,
                    who: HitOwner, returnOnHit: bool) returns (r: bool)
    requires SurfaceTraceWF(st, ls) && collRecMap.Length == MAX_G2_COLLISIONS
    modifies collRecMap
    ensures (collRecMap[..], r) == PointFrom(ls, st, who, returnOnHit, old(collRecMap[..]), 0)
  {
    ghost var want := PointFrom(ls, st, who, returnOnHit, old(collRecMap[..]), 0);
    for j := 0 to |ls.triangles|
      invariant want == PointFrom(ls, st, who, returnOnHit, collRecMap[..], j)
    {
      var hit := st.point[j];
      if hit.Hit? {
        var slot := FindFreeRecord(collRecMap);
        if slot != -1 {
          collRecMap[slot] := PointRecord(collRecMap[slot], who, j, hit);
          if returnOnHit {
            return true;
          }
        }
      }
    }
    return false;
  }

  // ---------------------------------------------------------------------
  // What the tracers may change

  /** Every record that differs from `before` was free there and now belongs
      to entity `entNum` and to one of the (model, surface) pairs `owners`. */
  ghost predicate FillsFree(before: seq<CollisionRecord>, after: seq<CollisionRecord>, entNum: int, owners: set<(int, int)>)
  {
    |after| == |before| &&
    forall k :: 0 <= k < |before| ==>
      after[k] == before[k] ||
      (IsFreeRecord(before[k]) && after[k].entityNum == entNum && (after[k].modelIndex, after[k].surfaceIndex) in owners)
  }

  lemma FillsFreeTrans(a: seq<CollisionRecord>, b: seq<CollisionRecord>, c: seq<CollisionRecord>, entNum: int,
                       o1: set<(int, int)>, o2: set<(int, int)>)
    requires FillsFree(a, b, entNum, o1) && FillsFree(b, c, entNum, o2)
    ensures FillsFree(a, c, entNum, o1 + o2)
  {
  }

  lemma FillsFreeWiden(a: seq<CollisionRecord>, b: seq<CollisionRecord>, entNum: int, o1: set<(int, int)>, o2: set<(int, int)>)
    requires FillsFree(a, b, entNum, o1) && o1 <= o2
    ensures FillsFree(a, b, entNum, o2)
  {
  }

  lemma FillsNone(coll: seq<CollisionRecord>, entNum: int, owners: set<(int, int)>)
    ensures FillsFree(coll, coll, entNum, owners)
  {
  }

  /** Filling one free record for `who` is a fill of free records. */
  lemma FillOne(coll: seq<CollisionRecord>, i: int, rec: CollisionRecord, who: HitOwner)
    requires 0 <= i < |coll| && IsFreeRecord(coll[i])
    requires rec.entityNum == who.entNum && rec.modelIndex == who.modelIndex && rec.surfaceIndex == who.surfaceIndex
    ensures FillsFree(coll, coll[i := rec], who.entNum, {(who.modelIndex, who.surfaceIndex)})
  {
  }

  /** The radius trace fills only free records, each with its owner; a `true`
      result without returnOnHit means it ran out of free records. */
  lemma {:induction false} RadiusFromFills(ls: LodSurface, st: SurfaceTrace, who: HitOwner, returnOnHit: bool,
                                           coll: seq<CollisionRecord>, j: nat)
    requires SurfaceTraceWF(st, ls) && j <= |ls.triangles|
    ensures FillsFree(coll, RadiusFrom(ls, st, who, returnOnHit, coll, j).0, who.entNum, {(who.modelIndex, who.surfaceIndex)})
    ensures RadiusFrom(ls, st, who, returnOnHit, coll, j).1 ==>
              returnOnHit || FirstFreeRecord(RadiusFrom(ls, st, who, returnOnHit, coll, j).0).None?
    decreases |ls.triangles| - j
  {
    var o := {(who.modelIndex, who.surfaceIndex)};
    if j == |ls.triangles| {
      assert RadiusFrom(ls, st, who, returnOnHit, coll, j) == (coll, false);
      FillsNone(coll, who.entNum, o);
    } else {
      if TriangleMask(st.sides, ls.triangles[j]) != 0 {
        assert RadiusFrom(ls, st, who, returnOnHit, coll, j) == RadiusFrom(ls, st, who, returnOnHit, coll, j + 1);
        RadiusFromFills(ls, st, who, returnOnHit, coll, j + 1);
      } else {
        match FirstFreeRecord(coll)
        case None =>
          assert RadiusFrom(ls, st, who, returnOnHit, coll, j) == (coll, true);
          FillsNone(coll, who.entNum, o);
        case Some(i) =>
          if returnOnHit {
            var c0 := coll[i := RadiusBasic(coll[i], who, j, st.radius[j])];
            assert RadiusFrom(ls, st, who, returnOnHit, coll, j) == (c0, true);
            FillOne(coll, i, RadiusBasic(coll[i], who, j, st.radius[j]), who);
          } else {
            var c1 := coll[i := RadiusFull(coll[i], who, j, st.radius[j])];
            var r := RadiusFrom(ls, st, who, returnOnHit, c1, j + 1);
            assert RadiusFrom(ls, st, who, returnOnHit, coll, j) == r;
            FillOne(coll, i, RadiusFull(coll[i], who, j, st.radius[j]), who);
            RadiusFromFills(ls, st, who, returnOnHit, c1, j + 1);
            FillsFreeTrans(coll, c1, r.0, who.entNum, o, o);
            assert o + o == o;
          }
      }
    }
  }

  /** The point trace fills only free records, each with its owner, and
      reports `true` only under returnOnHit. */
  lemma {:induction false} PointFromFills(ls: LodSurface, st: SurfaceTrace, who: HitOwner, returnOnHit: bool,
                                          coll: seq<CollisionRecord>, j: nat)
    requires SurfaceTraceWF(st, ls) && j <= |ls.triangles|
    ensures FillsFree(coll, PointFrom(ls, st, who, returnOnHit, coll, j).0, who.entNum, {(who.modelIndex, who.surfaceIndex)})
    ensures PointFrom(ls, st, who, returnOnHit, coll, j).1 ==> returnOnHit
    decreases |ls.triangles| - j
  {
    var o := {(who.modelIndex, who.surfaceIndex)};
    if j < |ls.triangles| {
      if st.point[j].Miss? {
        PointFromFills(ls, st, who, returnOnHit, coll, j + 1);
      } else {
        match FirstFreeRecord(coll)
        case None =>
          PointFromFills(ls, st, who, returnOnHit, coll, j + 1);
        case Some(i) =>
          var c1 := coll[i := PointRecord(coll[i], who, j, st.point[j])];
          FillOne(coll, i, PointRecord(coll[i], who, j, st.point[j]), who);
          if !returnOnHit {
            PointFromFills(ls, st, who, returnOnHit, c1, j + 1);
            FillsFreeTrans(coll, c1, PointFrom(ls, st, who, returnOnHit, c1, j + 1).0, who.entNum, o, o);
            assert o + o == o;
          }
      }
    }
  }

  /** With no free record left the point trace changes nothing and reports
      no hit, whatever it intersects. */
  lemma {:induction false} PointFromFullTable(ls: LodSurface, st: SurfaceTrace, who: HitOwner, returnOnHit: bool,
                                              coll: seq<CollisionRecord>, j: nat)
    requires SurfaceTraceWF(st, ls) && j <= |ls.triangles| && FirstFreeRecord(coll).None?
    ensures PointFrom(ls, st, who, returnOnHit, coll, j) == (coll, false)
    decreases |ls.triangles| - j
  {
    if j < |ls.triangles| {
      PointFromFullTable(ls, st, who, returnOnHit, coll, j + 1);
    }
  }

  // ---------------------------------------------------------------------
  // G2_TraceSurfaces

  /** The point trace is used when the radius is below 0.1 in magnitude. */
  predicate IsPointTrace(radius: real)
  {
    (if radius < 0.0 then -radius else radius) < 0.1
  }

  /** What one surface walk works with: the override list and model of the
      instance, the LOD, the per-surface tracer inputs, whose hits they are
      and the trace flags. */
  datatype TraceSetup = TraceSetup(
    rootList: seq<SurfaceInfo>,
    md: Model,
    lod: int,
    traces: seq<SurfaceTrace>,
    entNum: int,
    modelIndex: int,
    returnOnHit: bool,
    pointTrace: bool)

  ghost predicate SetupWF(t: TraceSetup)
  {
    ModelWF(t.md) && 0 <= t.lod < |t.md.lods| && |t.traces| == NumSurfaces(t.md.mesh) &&
    forall s :: 0 <= s < |t.traces| ==>
      SurfaceTraceWF(t.traces[s], t.md.lods[t.lod][s]) &&
      (!t.pointTrace ==> t.md.lods[t.lod][s].numVerts <= MAX_GORE_VERTS)
  }

  /** The tracer run at a surface the walk handles; the flag is whether the
      walk must stop with hitOne set. */
  function TraceOne(t: TraceSetup, s: int, coll: seq<CollisionRecord>): (seq<CollisionRecord>, bool)
    requires SetupWF(t) && ValidSurface(t.md.mesh, s)
  {
    var ls := t.md.lods[t.lod][s];
    var who := HitOwner(t.entNum, t.modelIndex, ls.thisSurfaceIndex);
    var r := if t.pointTrace then PointFrom(ls, t.traces[s], who, t.returnOnHit, coll, 0)
             else RadiusTrace(ls, t.traces[s], who, t.returnOnHit, coll);
    (r.0, r.1 && t.returnOnHit)
  }

  /** The records and hitOne flag after the walk from `s`. */
  function TraceWalk(t: TraceSetup, s: int, coll: seq<CollisionRecord>, hitOne: bool): (seq<CollisionRecord>, bool)
    requires SetupWF(t) && ValidSurface(t.md.mesh, s)
    decreases t.md.mesh.rank[s], 1
  {
    if hitOne then (coll, true)
    else
      var f := EffectiveFlags(t.md.mesh, t.rootList, s);
      var r := if f == 0 then TraceOne(t, s, coll) else (coll, false);
      if r.1 || f & NODESCENDANTS != 0 then r
      else TraceKids(t, s, 0, r.0, false)
  }

  /** The walks from the children of `s` from the `i`-th on, in order. */
  function TraceKids(t: TraceSetup, s: int, i: nat, coll: seq<CollisionRecord>, hitOne: bool): (seq<CollisionRecord>, bool)
    requires SetupWF(t) && ValidSurface(t.md.mesh, s) && i <= |t.md.mesh.children[s]|
    decreases t.md.mesh.rank[s], 0, |t.md.mesh.children[s]| - i
  {
    var kids := t.md.mesh.children[s];
    if i == |kids| then (coll, hitOne)
    else
      var r := TraceWalk(t, kids[i], coll, hitOne);
      TraceKids(t, s, i + 1, r.0, r.1)
  }

  /** The (model, surface) pairs of one model's surfaces in `S`. */
  function Tag(modelIndex: int, S: set<int>): set<(int, int)>
  {
    set x | x in S :: (modelIndex, x)
  }

  /** The walks from the children of `s` mark the first child's surfaces
      together with those of the rest. */
  lemma VisitAllFront(m: Mesh, slist: seq<SurfaceInfo>, rule: WalkRule, kids: seq<int>, bound: nat)
    requires MeshWF(m) && |kids| > 0
    requires forall k :: 0 <= k < |kids| ==> ValidSurface(m, kids[k]) && m.rank[kids[k]] < bound
    ensures VisitAll(m, slist, rule, kids, bound) == Visit(m, slist, rule, kids[0]) + VisitAll(m, slist, rule, kids[1..], bound)
  {
    forall x
      ensures x in VisitAll(m, slist, rule, kids, bound) <==>
              x in Visit(m, slist, rule, kids[0]) || x in VisitAll(m, slist, rule, kids[1..], bound)
    {
      VisitAllMember(m, slist, rule, kids, bound, x);
      VisitAllMember(m, slist, rule, kids[1..], bound, x);
      if x in VisitAll(m, slist, rule, kids, bound) {
        var k :| 0 <= k < |kids| && x in Visit(m, slist, rule, kids[k]);
        if k > 0 {
          assert kids[1..][k - 1] == kids[k];
        }
      }
      if x in VisitAll(m, slist, rule, kids[1..], bound) {
        var k :| 0 <= k < |kids[1..]| && x in Visit(m, slist, rule, kids[1..][k]);
        assert kids[1..][k] == kids[k + 1];
      }
    }
  }

  /**
   * The trace walk fills only free records, each with its entity, this model
   * and a surface the transform walk marks from `s`; hitOne ends up set only
   * if it was already or returnOnHit is set; once set, the walk changes nothing.
   */
  lemma {:induction false} TraceWalkFills(t: TraceSetup, s: int, coll: seq<CollisionRecord>, hitOne: bool)
    requires SetupWF(t) && ValidSurface(t.md.mesh, s)
    ensures FillsFree(coll, TraceWalk(t, s, coll, hitOne).0, t.entNum,
                      Tag(t.modelIndex, Visit(t.md.mesh, t.rootList, TransformRule, s)))
    ensures TraceWalk(t, s, coll, hitOne).1 ==> hitOne || t.returnOnHit
    ensures hitOne ==> TraceWalk(t, s, coll, hitOne) == (coll, true)
    decreases t.md.mesh.rank[s], 1
  {
    var m := t.md.mesh;
    var V := Visit(m, t.rootList, TransformRule, s);
    if !hitOne {
      var f := EffectiveFlags(m, t.rootList, s);
      var r := if f == 0 then TraceOne(t, s, coll) else (coll, false);
      if f == 0 {
        TraceOneFills(t, s, coll);
        assert s in V;
        FillsFreeWiden(coll, r.0, t.entNum, Tag(t.modelIndex, {s}), Tag(t.modelIndex, V));
      } else {
        assert FillsFree(coll, r.0, t.entNum, {});
      }
      if !(r.1 || f & NODESCENDANTS != 0) {
        var own := if f == 0 then Tag(t.modelIndex, {s}) else {};
        TraceKidsFills(t, s, 0, r.0, false);
        var W := VisitAll(m, t.rootList, TransformRule, m.children[s], m.rank[s]);
        assert m.children[s][0..] == m.children[s];
        FillsFreeTrans(coll, r.0, TraceKids(t, s, 0, r.0, false).0, t.entNum, own, Tag(t.modelIndex, W));
        assert V == (if f == 0 then {s} else {}) + W;
        FillsFreeWiden(coll, TraceKids(t, s, 0, r.0, false).0, t.entNum, own + Tag(t.modelIndex, W), Tag(t.modelIndex, V));
      } else if f != 0 {
        FillsFreeWiden(coll, r.0, t.entNum, {}, Tag(t.modelIndex, V));
      }
    } else {
      assert FillsFree(coll, coll, t.entNum, {});
      FillsFreeWiden(coll, coll, t.entNum, {}, Tag(t.modelIndex, V));
    }
  }

  lemma TraceOneFills(t: TraceSetup, s: int, coll: seq<CollisionRecord>)
    requires SetupWF(t) && ValidSurface(t.md.mesh, s)
    ensures FillsFree(coll, TraceOne(t, s, coll).0, t.entNum, Tag(t.modelIndex, {s}))
    ensures TraceOne(t, s, coll).1 ==> t.returnOnHit
  {
    var ls := t.md.lods[t.lod][s];
    var who := HitOwner(t.entNum, t.modelIndex, ls.thisSurfaceIndex);
    assert {(who.modelIndex, who.surfaceIndex)} == Tag(t.modelIndex, {s});
    if t.pointTrace {
      PointFromFills(ls, t.traces[s], who, t.returnOnHit, coll, 0);
    } else if SurfaceMask(t.traces[s].sides, |t.traces[s].sides|) == 0 {
      RadiusFromFills(ls, t.traces[s], who, t.returnOnHit, coll, 0);
    } else {
      assert FillsFree(coll, coll, t.entNum, {});
    }
  }

  lemma {:induction false} TraceKidsFills(t: TraceSetup, s: int, i: nat, coll: seq<CollisionRecord>, hitOne: bool)
    requires SetupWF(t) && ValidSurface(t.md.mesh, s) && i <= |t.md.mesh.children[s]|
    ensures FillsFree(coll, TraceKids(t, s, i, coll, hitOne).0, t.entNum,
                      Tag(t.modelIndex, VisitAll(t.md.mesh, t.rootList, TransformRule, t.md.mesh.children[s][i..], t.md.mesh.rank[s])))
    ensures TraceKids(t, s, i, coll, hitOne).1 ==> hitOne || t.returnOnHit
    decreases t.md.mesh.rank[s], 0, |t.md.mesh.children[s]| - i
  {
    var m := t.md.mesh;
    var kids := m.children[s];
    var W := VisitAll(m, t.rootList, TransformRule, kids[i..], m.rank[s]);
    if i == |kids| {
      assert FillsFree(coll, coll, t.entNum, {});
      FillsFreeWiden(coll, coll, t.entNum, {}, Tag(t.modelIndex, W));
    } else {
      var r := TraceWalk(t, kids[i], coll, hitOne);
      TraceWalkFills(t, kids[i], coll, hitOne);
      TraceKidsFills(t, s, i + 1, r.0, r.1);
      var A := Visit(m, t.rootList, TransformRule, kids[i]);
      var B := VisitAll(m, t.rootList, TransformRule, kids[i + 1..], m.rank[s]);
      FillsFreeTrans(coll, r.0, TraceKids(t, s, i + 1, r.0, r.1).0, t.entNum, Tag(t.modelIndex, A), Tag(t.modelIndex, B));
      assert kids[i..][0] == kids[i] && kids[i..][1..] == kids[i + 1..];
      VisitAllFront(m, t.rootList, TransformRule, kids[i..], m.rank[s]);
      assert W == A + B;
      FillsFreeWiden(coll, TraceKids(t, s, i + 1, r.0, r.1).0, t.entNum,
                     Tag(t.modelIndex, A) + Tag(t.modelIndex, B), Tag(t.modelIndex, W));
    }
  }

  /**
   * CTraceSurface: the state G2_TraceSurfaces threads through its recursion.
   * The walk rewrites `surfaceNum` before each child and sets `hitOne` when a
   * tracer reports a hit under returnOnHit; the rest is fixed per instance.
   */
  class TraceSurface {
    var surfaceNum: int
    const rootSList: seq<SurfaceInfo>
    const model: Model
    const lod: int
    const collRecMap: array<CollisionRecord>
    const entNum: int
    const modelIndex: int
    /** The tracer inputs per surface at this LOD. */
    const traces: seq<SurfaceTrace>
    const returnOnHit: bool
    const radius: real
    var hitOne: bool

    constructor (surfaceNum: int, rootSList: seq<SurfaceInfo>, model: Model, lod: int,
                 collRecMap: array<CollisionRecord>, entNum: int, modelIndex: int,
                 traces: seq<SurfaceTrace>, returnOnHit: bool, radius: real)
      ensures this.surfaceNum == surfaceNum && this.rootSList == rootSList && this.model == model
      ensures this.lod == lod && this.collRecMap == collRecMap && this.entNum == entNum
      ensures this.modelIndex == modelIndex && this.traces == traces
      ensures this.returnOnHit == returnOnHit && this.radius == radius && !hitOne
    {
      this.surfaceNum := surfaceNum;
      this.rootSList := rootSList;
      this.model := model;
      this.lod := lod;
      this.collRecMap := collRecMap;
      this.entNum := entNum;
      this.modelIndex := modelIndex;
      this.traces := traces;
      this.returnOnHit := returnOnHit;
      this.radius := radius;
      hitOne := false;
    }

    function Setup(): TraceSetup
    {
      TraceSetup(rootSList, model, lod, traces, entNum, modelIndex, returnOnHit, IsPointTrace(radius))
    }

    ghost predicate Valid()
    {
      SetupWF(Setup()) && collRecMap.Length == MAX_G2_COLLISIONS
    }
  }

  /** G2_TraceSurfaces: the walk from `ts.surfaceNum`, as TraceWalk describes it. */
  method TraceSurfaces(ts: TraceSurface)
    requires ts.Valid() && ValidSurface(ts.model.mesh, ts.surfaceNum)
    modifies ts`surfaceNum, ts`hitOne, ts.collRecMap
    ensures (ts.collRecMap[..], ts.hitOne) == TraceWalk(ts.Setup(), old(ts.surfaceNum), old(ts.collRecMap[..]), old(ts.hitOne))
    decreases ts.model.mesh.rank[ts.surfaceNum], 1
  {
    var s := ts.surfaceNum;
    var m := ts.model.mesh;
    var surface := ts.model.lods[ts.lod][s];
    var surfOverride := FindOverrideSurface(s, ts.rootSList);
    if ts.hitOne {
      return;
    }
    var offFlags := m.defaultFlags[surface.thisSurfaceIndex];
    if surfOverride.Some? {
      offFlags := ts.rootSList[surfOverride.value].offFlags;
    }
    assert offFlags == EffectiveFlags(m, ts.rootSList, s);
    if offFlags == 0 {
      var who := HitOwner(ts.entNum, ts.modelIndex, surface.thisSurfaceIndex);
      var hit: bool;
      if !IsPointTrace(ts.radius) {
        hit := RadiusTracePolys(surface, ts.traces[s], ts.collRecMap, who, ts.returnOnHit);
      } else {
        hit := TracePolys(surface, ts.traces[s], ts.collRecMap, who, ts.returnOnHit);
      }
      if hit && ts.returnOnHit {
        ts.hitOne := true;
        return;
      }
    }
    if offFlags & NODESCENDANTS != 0 {
      return;
    }
    TraceChildren(ts, s);
  }

  /** The loop of G2_TraceSurfaces over the children of `s`. */
  method TraceChildren(ts: TraceSurface, s: int)
    requires ts.Valid() && ValidSurface(ts.model.mesh, s)
    modifies ts`surfaceNum, ts`hitOne, ts.collRecMap
    ensures (ts.collRecMap[..], ts.hitOne) == TraceKids(ts.Setup(), s, 0, old(ts.collRecMap[..]), old(ts.hitOne))
    decreases ts.model.mesh.rank[s], 0
  {
    var kids := ts.model.mesh.children[s];
    ghost var t := ts.Setup();
    ghost var want := TraceKids(t, s, 0, ts.collRecMap[..], ts.hitOne);
    for i := 0 to |kids|
      invariant want == TraceKids(t, s, i, ts.collRecMap[..], ts.hitOne)
    {
      ts.surfaceNum := kids[i];
      TraceSurfaces(ts);
    }
  }

  // ---------------------------------------------------------------------
  // G2_TraceModels

  /** An instance the trace looks at: in use and not excluded from collision. */
  predicate Collidable(g: Ghoul2Info)
    reads g
  {
    g.mModelindex != -1 && g.mFlags & GHOUL2_NOCOLLIDE == 0
  }

  /** The tracer inputs of a collidable instance, per LOD and surface, fit its model. */
  ghost predicate InstanceTraceWF(g: Ghoul2Info, i: int, traces: seq<seq<SurfaceTrace>>, pointTrace: bool)
    reads g
  {
    Collidable(g) ==>
      ModelWF(g.model) && ValidSurface(g.model.mesh, g.mSurfaceRoot) && |traces| == |g.model.lods| &&
      forall l :: 0 <= l < |traces| ==> SetupWF(TraceSetup(g.mSlist, g.model, l, traces[l], 0, i, false, pointTrace))
  }

  /** The LOD the trace picks for a collidable instance is one the engine can
      index: DecideTraceLod with a record array, the requested LOD otherwise. */
  predicate TraceLodDefined(g: Ghoul2Info, useLod: int, hasMap: bool)
    reads g
  {
    Collidable(g) ==> if hasMap then useLod >= 0 || g.mLodBias >= 0 else useLod >= 0
  }

  ghost predicate ModelsLodDefined(ghoul2: seq<Ghoul2Info>, useLod: int, hasMap: bool)
    reads set i | 0 <= i < |ghoul2| :: ghoul2[i]
  {
    forall i :: 0 <= i < |ghoul2| ==> TraceLodDefined(ghoul2[i], useLod, hasMap)
  }

  ghost predicate ModelsTraceWF(ghoul2: seq<Ghoul2Info>, traces: seq<seq<seq<SurfaceTrace>>>, pointTrace: bool)
    reads set i | 0 <= i < |ghoul2| :: ghoul2[i]
  {
    |traces| == |ghoul2| && forall i :: 0 <= i < |ghoul2| ==> InstanceTraceWF(ghoul2[i], i, traces[i], pointTrace)
  }

  /** One iteration of G2_TraceModels on instance `i`: the records afterwards,
      and whether the trace ends there. */
  function InstanceTrace(g: Ghoul2Info, i: int, traces: seq<seq<SurfaceTrace>>, entNum: int,
                         returnOnHit: bool, pointTrace: bool, hasMap: bool, useLod: int,
                         coll: seq<CollisionRecord>): (seq<CollisionRecord>, bool)
    reads g
    requires InstanceTraceWF(g, i, traces, pointTrace) && TraceLodDefined(g, useLod, hasMap)
  {
    if !Collidable(g) then (coll, false)
    else
      var lod := if hasMap then DecideTraceLod(g.mLodBias, useLod, |g.model.lods|) else useLod;
      if lod >= |g.model.lods| then (coll, true)
      else
        assert SetupWF(TraceSetup(g.mSlist, g.model, lod, traces[lod], 0, i, false, pointTrace));
        var r := TraceWalk(TraceSetup(g.mSlist, g.model, lod, traces[lod], entNum, i, returnOnHit, pointTrace),
                           g.mSurfaceRoot, coll, false);
        (r.0, returnOnHit && r.1)
  }

  /** The records after the instances from the `i`-th on have been traced. */
  function TraceModelsFrom(ghoul2: seq<Ghoul2Info>, traces: seq<seq<seq<SurfaceTrace>>>, entNum: int,
                           returnOnHit: bool, pointTrace: bool, hasMap: bool, useLod: int,
                           i: nat, coll: seq<CollisionRecord>): seq<CollisionRecord>
    reads set i | 0 <= i < |ghoul2| :: ghoul2[i]
    requires ModelsTraceWF(ghoul2, traces, pointTrace) && ModelsLodDefined(ghoul2, useLod, hasMap) && i <= |ghoul2|
    decreases |ghoul2| - i
  {
    if i == |ghoul2| then coll
    else
      var r := InstanceTrace(ghoul2[i], i, traces[i], entNum, returnOnHit, pointTrace, hasMap, useLod, coll);
      if r.1 then r.0
      else TraceModelsFrom(ghoul2, traces, entNum, returnOnHit, pointTrace, hasMap, useLod, i + 1, r.0)
  }

  /**
   * G2_TraceModels: each collidable instance is walked from its root at the
   * LOD the trace picks (DecideTraceLod with a record array; the requested
   * LOD otherwise, stopping the whole trace when the model lacks it), and a
   * hit under returnOnHit ends the trace.
   */
  method TraceModels(ghoul2: seq<Ghoul2Info>, traces: seq<seq<seq<SurfaceTrace>>>, collRecMap: array<CollisionRecord>,
                     entNum: int, returnOnHit: bool, useLod: int, radius: real, hasMap: bool)
    requires ModelsTraceWF(ghoul2, traces, IsPointTrace(radius)) && ModelsLodDefined(ghoul2, useLod, hasMap)
    requires collRecMap.Length == MAX_G2_COLLISIONS
    modifies collRecMap
    ensures collRecMap[..] ==
            TraceModelsFrom(ghoul2, traces, entNum, returnOnHit, IsPointTrace(radius), hasMap, useLod, 0, old(collRecMap[..]))
  {
    ghost var pt := IsPointTrace(radius);
    for i := 0 to |ghoul2|
      invariant TraceModelsFrom(ghoul2, traces, entNum, returnOnHit, pt, hasMap, useLod, 0, old(collRecMap[..])) ==
                TraceModelsFrom(ghoul2, traces, entNum, returnOnHit, pt, hasMap, useLod, i, collRecMap[..])
    {
      var stop := TraceInstance(ghoul2[i], i, traces[i], collRecMap, entNum, returnOnHit, useLod, radius, hasMap);
      if stop {
        return;
      }
    }
  }

  /** The body of the loop of G2_TraceModels for instance `i`. */
  method TraceInstance(g: Ghoul2Info, i: int, traces: seq<seq<SurfaceTrace>>, collRecMap: array<CollisionRecord>,
                       entNum: int, returnOnHit: bool, useLod: int, radius: real, hasMap: bool)
    returns (stop: bool)
    requires InstanceTraceWF(g, i, traces, IsPointTrace(radius)) && TraceLodDefined(g, useLod, hasMap)
    requires collRecMap.Length == MAX_G2_COLLISIONS
    modifies collRecMap
    ensures (collRecMap[..], stop) ==
            InstanceTrace(g, i, traces, entNum, returnOnHit, IsPointTrace(radius), hasMap, useLod, old(collRecMap[..]))
  {
    if g.mModelindex == -1 {
      return false;
    }
    if g.mFlags & GHOUL2_NOCOLLIDE != 0 {
      return false;
    }
    var lod: int;
    if hasMap {
      lod := DecideTraceLod(g.mLodBias, useLod, |g.model.lods|);
    } else {
      lod := useLod;
      if lod >= |g.model.lods| {
        return true;
      }
    }
    assert SetupWF(TraceSetup(g.mSlist, g.model, lod, traces[lod], 0, i, false, IsPointTrace(radius)));
    var ts := new TraceSurface(g.mSurfaceRoot, g.mSlist, g.model, lod, collRecMap, entNum, i, traces[lod], returnOnHit, radius);
    TraceSurfaces(ts);
    stop := returnOnHit && ts.hitOne;
  }

  /** The (instance, surface) pairs the trace may record from the `i`-th
      instance on: the surfaces the transform walk marks in each collidable one. */
  ghost function ModelOwners(ghoul2: seq<Ghoul2Info>, traces: seq<seq<seq<SurfaceTrace>>>, pointTrace: bool, i: nat): set<(int, int)>
    reads set i | 0 <= i < |ghoul2| :: ghoul2[i]
    requires ModelsTraceWF(ghoul2, traces, pointTrace) && i <= |ghoul2|
    decreases |ghoul2| - i
  {
    if i == |ghoul2| then {}
    else
      var g := ghoul2[i];
      (if Collidable(g) then Tag(i, Visit(g.model.mesh, g.mSlist, TransformRule, g.mSurfaceRoot)) else {}) +
      ModelOwners(ghoul2, traces, pointTrace, i + 1)
  }

  lemma InstanceTraceFills(g: Ghoul2Info, i: int, traces: seq<seq<SurfaceTrace>>, entNum: int,
                           returnOnHit: bool, pointTrace: bool, hasMap: bool, useLod: int, coll: seq<CollisionRecord>)
    requires InstanceTraceWF(g, i, traces, pointTrace) && TraceLodDefined(g, useLod, hasMap)
    ensures FillsFree(coll, InstanceTrace(g, i, traces, entNum, returnOnHit, pointTrace, hasMap, useLod, coll).0, entNum,
                      if Collidable(g) then Tag(i, Visit(g.model.mesh, g.mSlist, TransformRule, g.mSurfaceRoot)) else {})
  {
    if Collidable(g) {
      var lod := if hasMap then DecideTraceLod(g.mLodBias, useLod, |g.model.lods|) else useLod;
      if lod < |g.model.lods| {
        assert SetupWF(TraceSetup(g.mSlist, g.model, lod, traces[lod], 0, i, false, pointTrace));
        TraceWalkFills(TraceSetup(g.mSlist, g.model, lod, traces[lod], entNum, i, returnOnHit, pointTrace),
                       g.mSurfaceRoot, coll, false);
      } else {
        assert FillsFree(coll, coll, entNum, {});
      }
    } else {
      assert FillsFree(coll, coll, entNum, {});
    }
  }

  /** The whole trace fills only free records, each with the traced entity,
      a collidable instance and a surface of it the transform walk marks. */
  lemma {:induction false} TraceModelsFills(ghoul2: seq<Ghoul2Info>, traces: seq<seq<seq<SurfaceTrace>>>, entNum: int,
                                            returnOnHit: bool, pointTrace: bool, hasMap: bool, useLod: int,
                                            i: nat, coll: seq<CollisionRecord>)
    requires ModelsTraceWF(ghoul2, traces, pointTrace) && ModelsLodDefined(ghoul2, useLod, hasMap) && i <= |ghoul2|
    ensures FillsFree(coll, TraceModelsFrom(ghoul2, traces, entNum, returnOnHit, pointTrace, hasMap, useLod, i, coll),
                      entNum, ModelOwners(ghoul2, traces, pointTrace, i))
    decreases |ghoul2| - i
  {
    if i == |ghoul2| {
      assert FillsFree(coll, coll, entNum, {});
    } else {
      var g := ghoul2[i];
      var own := if Collidable(g) then Tag(i, Visit(g.model.mesh, g.mSlist, TransformRule, g.mSurfaceRoot)) else {};
      var rest := ModelOwners(ghoul2, traces, pointTrace, i + 1);
      var r := InstanceTrace(g, i, traces[i], entNum, returnOnHit, pointTrace, hasMap, useLod, coll);
      InstanceTraceFills(g, i, traces[i], entNum, returnOnHit, pointTrace, hasMap, useLod, coll);
      if r.1 {
        FillsFreeWiden(coll, r.0, entNum, own, own + rest);
      } else {
        TraceModelsFills(ghoul2, traces, entNum, returnOnHit, pointTrace, hasMap, useLod, i + 1, r.0);
        FillsFreeTrans(coll, r.0, TraceModelsFrom(ghoul2, traces, entNum, returnOnHit, pointTrace, hasMap, useLod, i + 1, r.0),
                       entNum, own, rest);
      }
    }
  }
}
