// Shared data model of the Ghoul2 collision core: surface-override slots,
// bolts, bone overrides, the loaded model (surface hierarchy plus per-LOD
// geometry), one model instance, and the hierarchy walk that the surface,
// transform and trace passes all follow.
module Ghoul2Types {
  import opened Text

  // Surface flags (G2SURFACEFLAG_*), as bit patterns of a C int.
  const OFF: bv32 := 0x2
  const NODESCENDANTS: bv32 := 0x100
  const GENERATED: bv32 := 0x200

  /** Slot value marking a free surface-override slot. */
  const FREE_SLOT: int := -1
  /** Slot value marking a generated (procedural) surface. */
  const GENERATED_SURFACE: int := 10000

  /** One entry of a surface-override list (surfaceInfo_t). */
  datatype SurfaceInfo = SurfaceInfo(
    surface: int,
    offFlags: bv32,
    genPolySurfaceIndex: int,
    genBarycentricI: real,
    genBarycentricJ: real,
    genLod: int)

  /** One entry of a bolt list (boltInfo_t); a slot is free when both numbers are -1. */
  datatype BoltInfo = BoltInfo(boneNumber: int, surfaceNumber: int, surfaceType: bv32, boltUsed: int)

  /** One bone override (boneInfo_t): the 12 coefficients of its 3x4 matrices. */
  datatype BoneInfo = BoneInfo(boneNumber: int, flags: bv32, matrix: seq<real>, newMatrix: seq<real>)

  datatype Vec3 = Vec3(x: real, y: real, z: real)
  datatype Triangle = Triangle(a: int, b: int, c: int)

  /**
   * The surface hierarchy of a loaded mesh: per surface its name, parent
   * (-1 at a root), children and default flags.  `rank` is a witness of
   * acyclicity: a child always has a smaller rank than its parent.
   */
  datatype Mesh = Mesh(
    names: seq<string>,
    parent: seq<int>,
    children: seq<seq<int>>,
    defaultFlags: seq<bv32>,
    rank: seq<nat>)

  /**
   * One surface at one LOD: its vertices after bone skinning (the bone-weighted
   * sum is computed outside this model), texture coordinates and triangles.
   */
  datatype LodSurface = LodSurface(
    thisSurfaceIndex: int,
    numVerts: nat,
    positions: seq<Vec3>,
    texS: seq<real>,
    texT: seq<real>,
    triangles: seq<Triangle>)

  /** A loaded Ghoul2 model: hierarchy, geometry per LOD, skeleton bone names. */
  datatype Model = Model(mesh: Mesh, lods: seq<seq<LodSurface>>, boneNames: seq<string>)

  function NumSurfaces(m: Mesh): nat { |m.names| }

  predicate ValidSurface(m: Mesh, s: int) { 0 <= s < |m.names| }

  /** The hierarchy is a forest: consistent parent/child links, no repeated
      child, and ranks strictly decreasing from parent to child. */
  ghost predicate MeshWF(m: Mesh)
  {
    var n := |m.names|;
    |m.parent| == n && |m.children| == n && |m.defaultFlags| == n && |m.rank| == n &&
    (forall s :: 0 <= s < n ==> m.rank[s] < n) &&
    (forall s :: 0 <= s < n ==>
       (m.parent[s] == -1 ||
        (0 <= m.parent[s] < n && m.rank[s] < m.rank[m.parent[s]] && s in m.children[m.parent[s]]))) &&
    (forall s, k :: 0 <= s < n && 0 <= k < |m.children[s]| ==>
       0 <= m.children[s][k] < n && m.parent[m.children[s][k]] == s) &&
    (forall s, j, k :: 0 <= s < n && 0 <= j < k < |m.children[s]| ==>
       m.children[s][j] != m.children[s][k])
  }

  ghost predicate LodSurfaceWF(ls: LodSurface, s: int)
  {
    ls.thisSurfaceIndex == s &&
    |ls.positions| == ls.numVerts && |ls.texS| == ls.numVerts && |ls.texT| == ls.numVerts &&
    forall j :: 0 <= j < |ls.triangles| ==>
      0 <= ls.triangles[j].a < ls.numVerts &&
      0 <= ls.triangles[j].b < ls.numVerts &&
      0 <= ls.triangles[j].c < ls.numVerts
  }

  /** A well-formed model has at least one LOD, and every LOD lists every surface. */
  ghost predicate ModelWF(md: Model)
  {
    MeshWF(md.mesh) && |md.lods| >= 1 &&
    forall l :: 0 <= l < |md.lods| ==>
      |md.lods[l]| == NumSurfaces(md.mesh) &&
      forall s :: 0 <= s < |md.lods[l]| ==> LodSurfaceWF(md.lods[l][s], s)
  }

  // ---------------------------------------------------------------------
  // Override lookup and effective flags

  /** First slot at or after `i` whose `surface` is `s` (G2_FindOverrideSurface). */
  function FirstOverrideFrom(slist: seq<SurfaceInfo>, s: int, i: nat): (r: Option<nat>)
    requires i <= |slist|
    ensures r.Some? ==> i <= r.value < |slist| && slist[r.value].surface == s &&
                        forall j :: i <= j < r.value ==> slist[j].surface != s
    ensures r.None? ==> forall j :: i <= j < |slist| ==> slist[j].surface != s
    decreases |slist| - i
  {
    if i == |slist| then None
    else if slist[i].surface == s then Some(i)
    else FirstOverrideFrom(slist, s, i + 1)
  }

  function FirstOverride(slist: seq<SurfaceInfo>, s: int): Option<nat>
  {
    FirstOverrideFrom(slist, s, 0)
  }

  /** The flags a walk uses for surface `s`: the first override, else the default. */
  function EffectiveFlags(m: Mesh, slist: seq<SurfaceInfo>, s: int): bv32
    requires MeshWF(m) && ValidSurface(m, s)
  {
    match FirstOverride(slist, s)
    case Some(i) => slist[i].offFlags
    case None => m.defaultFlags[s]
  }

  // ---------------------------------------------------------------------
  // Hierarchy walks

  /**
   * Two walks share one shape.  The active-surface walk marks a surface
   * whose flags lack OFF and stops below one that is OFF and NODESCENDANTS;
   * the transform and trace walks handle a surface whose flags are all clear
   * and stop below any NODESCENDANTS surface.
   */
  datatype WalkRule = ActiveRule | TransformRule

  predicate Marks(rule: WalkRule, f: bv32)
  {
    match rule
    case ActiveRule => f & OFF == 0
    case TransformRule => f == 0
  }

  predicate Stops(rule: WalkRule, f: bv32)
  {
    match rule
    case ActiveRule => f & OFF != 0 && f & NODESCENDANTS != 0
    case TransformRule => f & NODESCENDANTS != 0
  }

  /** Surfaces a walk from `s` marks. */
  function Visit(m: Mesh, slist: seq<SurfaceInfo>, rule: WalkRule, s: int): set<int>
    requires MeshWF(m) && ValidSurface(m, s)
    decreases m.rank[s], 1, 0
  {
    var f := EffectiveFlags(m, slist, s);
    (if Marks(rule, f) then {s} else {}) +
    (if Stops(rule, f) then {} else VisitAll(m, slist, rule, m.children[s], m.rank[s]))
  }

  /** Surfaces the walks from each of `kids` mark. */
  function VisitAll(m: Mesh, slist: seq<SurfaceInfo>, rule: WalkRule, kids: seq<int>, bound: nat): set<int>
    requires MeshWF(m)
    requires forall k :: 0 <= k < |kids| ==> ValidSurface(m, kids[k]) && m.rank[kids[k]] < bound
    decreases bound, 0, |kids|
  {
    if kids == [] then {}
    else VisitAll(m, slist, rule, kids[..|kids| - 1], bound) + Visit(m, slist, rule, kids[|kids| - 1])
  }

  /** `a` is `t` or one of its ancestors. */
  ghost predicate IsAncestorOrSelf(m: Mesh, a: int, t: int)
    requires MeshWF(m) && ValidSurface(m, t)
    decreases |m.names| - m.rank[t]
  {
    t == a || (m.parent[t] != -1 && IsAncestorOrSelf(m, a, m.parent[t]))
  }

  /** The walk from `s` reaches `t`: `t` lies under `s` and no surface on the
      path from `s` to the parent of `t` stops the walk. */
  ghost predicate Reaches(m: Mesh, slist: seq<SurfaceInfo>, rule: WalkRule, s: int, t: int)
    requires MeshWF(m) && ValidSurface(m, t)
    decreases |m.names| - m.rank[t]
  {
    t == s ||
    (m.parent[t] != -1 &&
     !Stops(rule, EffectiveFlags(m, slist, m.parent[t])) &&
     Reaches(m, slist, rule, s, m.parent[t]))
  }

  lemma {:induction false} VisitAllMember(m: Mesh, slist: seq<SurfaceInfo>, rule: WalkRule, kids: seq<int>, bound: nat, x: int)
    requires MeshWF(m)
    requires forall k :: 0 <= k < |kids| ==> ValidSurface(m, kids[k]) && m.rank[kids[k]] < bound
    ensures x in VisitAll(m, slist, rule, kids, bound) <==>
            exists k :: 0 <= k < |kids| && x in Visit(m, slist, rule, kids[k])
    decreases |kids|
  {
    if kids != [] {
      var init := kids[..|kids| - 1];
      VisitAllMember(m, slist, rule, init, bound, x);
      if x in VisitAll(m, slist, rule, kids, bound) {
        if x in VisitAll(m, slist, rule, init, bound) {
          var k :| 0 <= k < |init| && x in Visit(m, slist, rule, init[k]);
          assert kids[k] == init[k];
        }
      } else {
        forall k | 0 <= k < |kids|
          ensures x !in Visit(m, slist, rule, kids[k])
        {
          if k < |init| {
            assert kids[k] == init[k];
          }
        }
      }
    }
  }

  /** A walk that passes `s` without stopping continues into the subtree of every child. */
  lemma {:induction false} ReachesExtend(m: Mesh, slist: seq<SurfaceInfo>, rule: WalkRule, s: int, c: int, t: int)
    requires MeshWF(m) && ValidSurface(m, s) && ValidSurface(m, c) && ValidSurface(m, t)
    requires m.parent[c] == s && !Stops(rule, EffectiveFlags(m, slist, s))
    requires Reaches(m, slist, rule, c, t)
    ensures Reaches(m, slist, rule, s, t)
    decreases |m.names| - m.rank[t]
  {
    if t != c {
      ReachesExtend(m, slist, rule, s, c, m.parent[t]);
    }
  }

  /** A surface strictly below `s` that the walk reaches is reached through one child of `s`. */
  lemma {:induction false} ReachesChild(m: Mesh, slist: seq<SurfaceInfo>, rule: WalkRule, s: int, t: int)
    requires MeshWF(m) && ValidSurface(m, s) && ValidSurface(m, t)
    requires Reaches(m, slist, rule, s, t) && t != s
    ensures !Stops(rule, EffectiveFlags(m, slist, s))
    ensures exists k :: 0 <= k < |m.children[s]| && Reaches(m, slist, rule, m.children[s][k], t)
    decreases |m.names| - m.rank[t]
  {
    var p := m.parent[t];
    if p == s {
      var k :| 0 <= k < |m.children[s]| && m.children[s][k] == t;
      assert Reaches(m, slist, rule, m.children[s][k], t);
    } else {
      ReachesChild(m, slist, rule, s, p);
      var k :| 0 <= k < |m.children[s]| && Reaches(m, slist, rule, m.children[s][k], p);
      assert Reaches(m, slist, rule, m.children[s][k], t);
    }
  }

  /** Everything the walk from `s` marks is reached and passes the marking test. */
  lemma {:induction false} VisitSound(m: Mesh, slist: seq<SurfaceInfo>, rule: WalkRule, s: int, t: int)
    requires MeshWF(m) && ValidSurface(m, s) && t in Visit(m, slist, rule, s)
    ensures ValidSurface(m, t) && Reaches(m, slist, rule, s, t) && Marks(rule, EffectiveFlags(m, slist, t))
    decreases m.rank[s]
  {
    var kids := m.children[s];
    var f := EffectiveFlags(m, slist, s);
    if !(t == s && Marks(rule, f)) {
      assert !Stops(rule, f) && t in VisitAll(m, slist, rule, kids, m.rank[s]);
      VisitAllMember(m, slist, rule, kids, m.rank[s], t);
      var k :| 0 <= k < |kids| && t in Visit(m, slist, rule, kids[k]);
      VisitSound(m, slist, rule, kids[k], t);
      ReachesExtend(m, slist, rule, s, kids[k], t);
    }
  }

  /** Every reached surface that passes the marking test is marked. */
  lemma {:induction false} VisitComplete(m: Mesh, slist: seq<SurfaceInfo>, rule: WalkRule, s: int, t: int)
    requires MeshWF(m) && ValidSurface(m, s) && ValidSurface(m, t)
    requires Reaches(m, slist, rule, s, t) && Marks(rule, EffectiveFlags(m, slist, t))
    ensures t in Visit(m, slist, rule, s)
    decreases m.rank[s]
  {
    if t != s {
      var kids := m.children[s];
      ReachesChild(m, slist, rule, s, t);
      var k :| 0 <= k < |kids| && Reaches(m, slist, rule, kids[k], t);
      VisitComplete(m, slist, rule, kids[k], t);
      VisitAllMember(m, slist, rule, kids, m.rank[s], t);
    }
  }

  /**
   * The walk from `s` marks exactly the surfaces it reaches whose effective
   * flags satisfy the rule's marking test.
   */
  lemma VisitIff(m: Mesh, slist: seq<SurfaceInfo>, rule: WalkRule, s: int, t: int)
    requires MeshWF(m) && ValidSurface(m, s)
    ensures t in Visit(m, slist, rule, s) <==>
            ValidSurface(m, t) && Reaches(m, slist, rule, s, t) && Marks(rule, EffectiveFlags(m, slist, t))
  {
    if t in Visit(m, slist, rule, s) {
      VisitSound(m, slist, rule, s, t);
    }
    if ValidSurface(m, t) && Reaches(m, slist, rule, s, t) && Marks(rule, EffectiveFlags(m, slist, t)) {
      VisitComplete(m, slist, rule, s, t);
    }
  }

  lemma {:induction false} ReachesIsAncestor(m: Mesh, slist: seq<SurfaceInfo>, rule: WalkRule, s: int, t: int)
    requires MeshWF(m) && ValidSurface(m, t) && Reaches(m, slist, rule, s, t)
    ensures IsAncestorOrSelf(m, s, t)
    decreases |m.names| - m.rank[t]
  {
    if t != s {
      ReachesIsAncestor(m, slist, rule, s, m.parent[t]);
    }
  }

  lemma {:induction false} AncestorRank(m: Mesh, a: int, t: int)
    requires MeshWF(m) && ValidSurface(m, t) && IsAncestorOrSelf(m, a, t)
    ensures ValidSurface(m, a) && m.rank[t] <= m.rank[a]
    decreases |m.names| - m.rank[t]
  {
    if t != a {
      AncestorRank(m, a, m.parent[t]);
    }
  }

  /** The ancestors of a surface form a chain. */
  lemma {:induction false} AncestorChain(m: Mesh, a: int, b: int, t: int)
    requires MeshWF(m) && ValidSurface(m, t)
    requires IsAncestorOrSelf(m, a, t) && IsAncestorOrSelf(m, b, t)
    ensures ValidSurface(m, a) && ValidSurface(m, b)
    ensures IsAncestorOrSelf(m, a, b) || IsAncestorOrSelf(m, b, a)
    decreases |m.names| - m.rank[t]
  {
    AncestorRank(m, a, t);
    AncestorRank(m, b, t);
    if t != a && t != b {
      AncestorChain(m, a, b, m.parent[t]);
    }
  }

  /** The subtrees of two different children of one surface share no surface. */
  lemma SiblingSubtreesDisjoint(m: Mesh, s: int, j: int, k: int, t: int)
    requires MeshWF(m) && ValidSurface(m, s) && ValidSurface(m, t)
    requires 0 <= j < |m.children[s]| && 0 <= k < |m.children[s]| && j != k
    requires IsAncestorOrSelf(m, m.children[s][j], t)
    ensures !IsAncestorOrSelf(m, m.children[s][k], t)
  {
    var cj, ck := m.children[s][j], m.children[s][k];
    assert cj != ck by {
      if j < k { assert m.children[s][j] != m.children[s][k]; }
      else { assert m.children[s][k] != m.children[s][j]; }
    }
    if IsAncestorOrSelf(m, ck, t) {
      AncestorChain(m, cj, ck, t);
      if IsAncestorOrSelf(m, cj, ck) {
        AncestorRank(m, cj, m.parent[ck]);
      } else {
        AncestorRank(m, ck, m.parent[cj]);
      }
    }
  }

  /** A walk marks only surfaces in the subtree it starts from. */
  lemma VisitInSubtree(m: Mesh, slist: seq<SurfaceInfo>, rule: WalkRule, s: int, t: int)
    requires MeshWF(m) && ValidSurface(m, s) && t in Visit(m, slist, rule, s)
    ensures ValidSurface(m, t) && IsAncestorOrSelf(m, s, t)
  {
    VisitSound(m, slist, rule, s, t);
    ReachesIsAncestor(m, slist, rule, s, t);
  }

  // ---------------------------------------------------------------------
  // One model instance (CGhoul2Info)

  class Ghoul2Info {
    /** The model mFileName resolves to. */
    const model: Model
    var mModelindex: int
    var mSurfaceRoot: int
    var mSlist: seq<SurfaceInfo>
    var mBltlist: seq<BoltInfo>
    var mBlist: seq<BoneInfo>
    /** -1, or the packed (model, bolt) this instance hangs from; see BoltLinkModel. */
    var mModelBoltLink: int
    var mFlags: bv32
    var mLodBias: int
    var mMeshFrameNum: int
    /** Per surface, the arena address of its transformed vertices, 0 when none. */
    var mTransformedVertsArray: array<int>

    constructor (model: Model, modelIndex: int, surfaceRoot: int, boltLink: int, flags: bv32, lodBias: int)
      ensures this.model == model && mModelindex == modelIndex && mSurfaceRoot == surfaceRoot
      ensures mSlist == [] && mBltlist == [] && mBlist == []
      ensures mModelBoltLink == boltLink && mFlags == flags && mLodBias == lodBias
      ensures mMeshFrameNum == -1 && mTransformedVertsArray.Length == 0
    {
      this.model := model;
      mModelindex := modelIndex;
      mSurfaceRoot := surfaceRoot;
      mSlist := [];
      mBltlist := [];
      mBlist := [];
      mModelBoltLink := boltLink;
      mFlags := flags;
      mLodBias := lodBias;
      mMeshFrameNum := -1;
      mTransformedVertsArray := new int[0];
    }
  }
}
