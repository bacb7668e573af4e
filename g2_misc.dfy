// LOD choice for tracing and the per-frame bone-matrix interpolation of
// G2_misc.cpp.
module G2Misc {
  import opened Text
  import opened Ghoul2Types

  // ---------------------------------------------------------------------
  // G2_DecideTraceLod

  /** The requested LOD raised to the instance's LOD bias, capped at the
      model's coarsest LOD. */
  function DecideTraceLod(lodBias: int, useLod: int, numLods: int): (r: int)
    ensures r <= numLods - 1
    ensures r <= useLod || r <= lodBias
    ensures r == numLods - 1 || (r >= useLod && r >= lodBias)
    ensures (useLod >= 0 || lodBias >= 0) && numLods >= 1 ==> 0 <= r < numLods
  {
    var returnLod := if lodBias > useLod then lodBias else useLod;
    if returnLod >= numLods then numLods - 1 else returnLod
  }

  /** Choosing twice changes nothing once the bias has been applied. */
  lemma DecideTraceLodIdempotent(lodBias: int, useLod: int, numLods: int)
    ensures DecideTraceLod(lodBias, DecideTraceLod(lodBias, useLod, numLods), numLods) ==
            DecideTraceLod(lodBias, useLod, numLods)
  {
  }

  // ---------------------------------------------------------------------
  // G2_LerpAngles

  /** Bone-angles override flags (BONE_ANGLES_TOTAL). */
  const BONE_ANGLES_TOTAL: bv32 := 0x7

  predicate BoneWF(b: BoneInfo) { |b.matrix| == 12 && |b.newMatrix| == 12 }

  predicate BonesWF(bl: seq<BoneInfo>) { forall x :: 0 <= x < |bl| ==> BoneWF(bl[x]) }

  /** Coefficient-wise interpolation of two 3x4 matrices. */
  function LerpMatrix(now: seq<real>, next: seq<real>, t: real): (r: seq<real>)
    requires |now| == 12 && |next| == 12
    ensures |r| == 12
    ensures forall z :: 0 <= z < 12 ==> r[z] == now[z] + t * (next[z] - now[z])
  {
    seq(12, z requires 0 <= z < 12 => now[z] + t * (next[z] - now[z]))
  }

  /** At 0 the interpolation is the current matrix, at 1 the next one. */
  lemma LerpMatrixEnds(now: seq<real>, next: seq<real>)
    requires |now| == 12 && |next| == 12
    ensures LerpMatrix(now, next, 0.0) == now
    ensures LerpMatrix(now, next, 1.0) == next
  {
    assert LerpMatrix(now, next, 0.0) == now by {
      forall z | 0 <= z < 12 ensures LerpMatrix(now, next, 0.0)[z] == now[z] { }
    }
    assert LerpMatrix(now, next, 1.0) == next by {
      forall z | 0 <= z < 12 ensures LerpMatrix(now, next, 1.0)[z] == next[z] { }
    }
  }

  /** Bone `x` of the next frame exists and is in use. */
  predicate HasNextBone(next: Option<seq<BoneInfo>>, x: int)
  {
    next.Some? && 0 <= x < |next.value| && next.value[x].boneNumber != -1
  }

  /** New state of bone `x`: interpolated towards the next frame when both
      bones are in use and this one overrides angles; a copy of the current
      matrix when there is no next bone. */
  function LerpBone(b: BoneInfo, next: Option<seq<BoneInfo>>, x: int, t: real): (r: BoneInfo)
    requires BoneWF(b)
    requires next.Some? ==> BonesWF(next.value)
    ensures BoneWF(r) && r.boneNumber == b.boneNumber && r.flags == b.flags && r.matrix == b.matrix
    ensures !HasNextBone(next, x) ==> r.newMatrix == b.matrix
    ensures HasNextBone(next, x) && b.boneNumber != -1 && b.flags & BONE_ANGLES_TOTAL != 0 ==>
              r.newMatrix == LerpMatrix(b.matrix, next.value[x].matrix, t)
    ensures HasNextBone(next, x) && !(b.boneNumber != -1 && b.flags & BONE_ANGLES_TOTAL != 0) ==> r == b
  {
    if HasNextBone(next, x) then
      if b.boneNumber != -1 && b.flags & BONE_ANGLES_TOTAL != 0 then
        b.(newMatrix := LerpMatrix(b.matrix, next.value[x].matrix, t))
      else b
    else b.(newMatrix := b.matrix)
  }

  function LerpBones(bl: seq<BoneInfo>, next: Option<seq<BoneInfo>>, t: real): (r: seq<BoneInfo>)
    requires BonesWF(bl)
    requires next.Some? ==> BonesWF(next.value)
    ensures |r| == |bl| && BonesWF(r)
    ensures forall x :: 0 <= x < |bl| ==> r[x] == LerpBone(bl[x], next, x, t)
  {
    seq(|bl|, x requires 0 <= x < |bl| => LerpBone(bl[x], next, x, t))
  }

  /** Two bone lists agree on everything the interpolation reads. */
  predicate SamePose(a: seq<BoneInfo>, b: seq<BoneInfo>)
  {
    |a| == |b| &&
    forall x :: 0 <= x < |a| ==> a[x].boneNumber == b[x].boneNumber && a[x].matrix == b[x].matrix
  }

  /** Interpolation only writes `newMatrix`, which it never reads. */
  lemma LerpPoseIndependent(bl: seq<BoneInfo>, n1: seq<BoneInfo>, n2: seq<BoneInfo>, t: real)
    requires BonesWF(bl) && BonesWF(n1) && BonesWF(n2) && SamePose(n1, n2)
    ensures LerpBones(bl, Some(n1), t) == LerpBones(bl, Some(n2), t)
    ensures SamePose(LerpBones(bl, Some(n1), t), bl)
  {
  }

  predicate Distinct(ghoul2: seq<Ghoul2Info>)
  {
    forall i, j :: 0 <= i < j < |ghoul2| ==> ghoul2[i] != ghoul2[j]
  }

  /**
   * G2_LerpAngles: every bone override of every instance in use gets its
   * `newMatrix` from this frame and the matching bone of the next frame.
   * The next-frame vector may share instances with this one.
   */
  method LerpAngles(ghoul2: seq<Ghoul2Info>, nextGhoul2: seq<Ghoul2Info>, interpolation: real)
    requires Distinct(ghoul2)
    requires forall i :: 0 <= i < |ghoul2| ==> BonesWF(ghoul2[i].mBlist)
    requires forall i :: 0 <= i < |nextGhoul2| ==> BonesWF(nextGhoul2[i].mBlist)
    modifies ghoul2`mBlist
    ensures forall i :: 0 <= i < |ghoul2| ==>
      ghoul2[i].mBlist ==
        if old(ghoul2[i].mModelindex) == -1 then old(ghoul2[i].mBlist)
        else LerpBones(old(ghoul2[i].mBlist),
                       if i < |nextGhoul2| && old(nextGhoul2[i].mModelindex) != -1
                       then Some(old(nextGhoul2[i].mBlist)) else None,
                       interpolation)
    ensures forall i :: 0 <= i < |ghoul2| ==> ghoul2[i].mModelindex == old(ghoul2[i].mModelindex)
  {
    for i := 0 to |ghoul2|
      invariant forall k :: 0 <= k < |ghoul2| ==> ghoul2[k].mModelindex == old(ghoul2[k].mModelindex)
      invariant forall k :: 0 <= k < |nextGhoul2| ==>
                  nextGhoul2[k].mModelindex == old(nextGhoul2[k].mModelindex) &&
                  BonesWF(nextGhoul2[k].mBlist) && SamePose(nextGhoul2[k].mBlist, old(nextGhoul2[k].mBlist))
      invariant forall k :: 0 <= k < |ghoul2| ==> BonesWF(ghoul2[k].mBlist)
      invariant forall k :: i <= k < |ghoul2| ==> ghoul2[k].mBlist == old(ghoul2[k].mBlist)
      invariant forall k :: 0 <= k < i ==>
        ghoul2[k].mBlist ==
          if old(ghoul2[k].mModelindex) == -1 then old(ghoul2[k].mBlist)
          else LerpBones(old(ghoul2[k].mBlist),
                         if k < |nextGhoul2| && old(nextGhoul2[k].mModelindex) != -1
                         then Some(old(nextGhoul2[k].mBlist)) else None,
                         interpolation)
    {
      if ghoul2[i].mModelindex != -1 {
        LerpInstance(ghoul2, i, nextGhoul2, interpolation);
      }
    }
  }

  /** The inner loop of G2_LerpAngles over the bone list of instance `i`. */
  method LerpInstance(ghoul2: seq<Ghoul2Info>, i: int, nextGhoul2: seq<Ghoul2Info>, interpolation: real)
    requires Distinct(ghoul2) && 0 <= i < |ghoul2|
    requires BonesWF(ghoul2[i].mBlist)
    requires forall k :: 0 <= k < |nextGhoul2| ==> BonesWF(nextGhoul2[k].mBlist)
    modifies {ghoul2[i]}`mBlist
    ensures ghoul2[i].mBlist ==
              LerpBones(old(ghoul2[i].mBlist),
                        if i < |nextGhoul2| && nextGhoul2[i].mModelindex != -1
                        then Some(old(nextGhoul2[i].mBlist)) else None,
                        interpolation)
    ensures SamePose(ghoul2[i].mBlist, old(ghoul2[i].mBlist))
    ensures forall k :: 0 <= k < |nextGhoul2| ==>
              BonesWF(nextGhoul2[k].mBlist) && SamePose(nextGhoul2[k].mBlist, old(nextGhoul2[k].mBlist))
    ensures ghoul2[i].mModelindex == old(ghoul2[i].mModelindex)
  {
    var g := ghoul2[i];
    ghost var nxt: Option<seq<BoneInfo>> :=
      if i < |nextGhoul2| && nextGhoul2[i].mModelindex != -1 then Some(nextGhoul2[i].mBlist) else None;
    ghost var target := LerpBones(g.mBlist, nxt, interpolation);
    for x := 0 to |g.mBlist|
      invariant |g.mBlist| == |old(g.mBlist)| && BonesWF(g.mBlist)
      invariant forall y :: 0 <= y < x ==> g.mBlist[y] == target[y]
      invariant forall y :: x <= y < |g.mBlist| ==> g.mBlist[y] == old(g.mBlist)[y]
      invariant forall k :: 0 <= k < |nextGhoul2| ==>
                  nextGhoul2[k].mModelindex == old(nextGhoul2[k].mModelindex) &&
                  BonesWF(nextGhoul2[k].mBlist) && SamePose(nextGhoul2[k].mBlist, old(nextGhoul2[k].mBlist))
      invariant g.mModelindex == old(g.mModelindex)
    {
      LerpBoneAt(g, x, nextGhoul2, i, interpolation, nxt);
    }
    assert g.mBlist == target;
  }

  /** One pass of the inner loop of G2_LerpAngles: bone `x` of `g` gets its
      new state, read against the bones `nxt` the next frame had before the
      loop (the next frame may be `g` itself, whose pose the loop keeps). */
  method LerpBoneAt(g: Ghoul2Info, x: int, nextGhoul2: seq<Ghoul2Info>, i: int, interpolation: real,
                    ghost nxt: Option<seq<BoneInfo>>)
    requires 0 <= x < |g.mBlist| && BonesWF(g.mBlist)
    requires forall k :: 0 <= k < |nextGhoul2| ==> BonesWF(nextGhoul2[k].mBlist)
    requires nxt.Some? <==> 0 <= i < |nextGhoul2| && nextGhoul2[i].mModelindex != -1
    requires nxt.Some? ==> BonesWF(nxt.value) && SamePose(nextGhoul2[i].mBlist, nxt.value)
    modifies g`mBlist
    ensures g.mBlist == old(g.mBlist)[x := LerpBone(old(g.mBlist)[x], nxt, x, interpolation)]
    ensures BonesWF(g.mBlist) && SamePose(g.mBlist, old(g.mBlist))
    ensures g.mModelindex == old(g.mModelindex)
  {
    var bone := g.mBlist[x];
    if 0 <= i < |nextGhoul2| && nextGhoul2[i].mModelindex != -1 &&
       |nextGhoul2[i].mBlist| > x && nextGhoul2[i].mBlist[x].boneNumber != -1
    {
      var nextBone := nextGhoul2[i].mBlist[x];
      if bone.boneNumber != -1 && bone.flags & BONE_ANGLES_TOTAL != 0 {
        var newMatrix := LerpMatrix(bone.matrix, nextBone.matrix, interpolation);
        g.mBlist := g.mBlist[x := bone.(newMatrix := newMatrix)];
      }
    } else {
      g.mBlist := g.mBlist[x := bone.(newMatrix := bone.matrix)];
    }
  }
}
