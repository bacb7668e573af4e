// The integer parts of BSP loading (tr_bsp.cpp): the overbright colour
// shift, lightmap atlas layout, the novis buffer size, node/leaf child
// decoding, and the index checks of triangle surfaces.
module BspLoad {
  import opened Text

  type byte = x: int | 0 <= x < 256

  // ---------------------------------------------------------------------
  // R_ColorShiftLightingBytes, greyscale off

  function Pow2(k: nat): (r: nat)
    ensures r >= 1
  {
    if k == 0 then 1 else 2 * Pow2(k - 1)
  }

  /** shift = max(0, r_mapOverBrightBits - tr.overbrightBits). */
  function OverbrightShift(mapOverBrightBits: int, overbrightBits: int): nat
  {
    if mapOverBrightBits - overbrightBits > 0 then mapOverBrightBits - overbrightBits else 0
  }

  function Max3(r: int, g: int, b: int): int
  {
    var m := if r > g then r else g;
    if m > b then m else b
  }

  /** The three output channels: each input shifted left, then, when any
      exceeds 255, all scaled by 255 / the largest in integer arithmetic. */
  function ShiftedColor(r0: byte, g0: byte, b0: byte, shift: nat): (c: seq<int>)
    ensures |c| == 3 && forall k :: 0 <= k < 3 ==> 0 <= c[k] <= 255
  {
    var r := r0 * Pow2(shift);
    var g := g0 * Pow2(shift);
    var b := b0 * Pow2(shift);
    if r > 255 || g > 255 || b > 255 then
      var m := Max3(r, g, b);
      ScaleBelow(r, m);
      ScaleBelow(g, m);
      ScaleBelow(b, m);
      Scaled([r, g, b])
    else [r, g, b]
  }

  lemma ScaleBelow(c: int, m: int)
    requires 0 <= c <= m && m > 0
    ensures 0 <= c * 255 / m <= 255
  {
    MulMonotone(c, m, 255);
    DivMonotone(c * 255, m * 255, m);
    ScaleMax(m);
  }

  lemma ScaleMax(m: int)
    requires m > 0
    ensures m * 255 / m == 255
  {
    DivAtLeast(255, m * 255, m);
    assert (m * 255 / m) * m <= m * 255;
    LtMulCancel(m * 255 / m, 256, m);
  }

  lemma LtMulCancel(x: int, y: int, d: int)
    requires d > 0 && x * d < y * d
    ensures x < y
  {
  }

  lemma DivMonotone(a: int, b: int, d: int)
    requires 0 <= a <= b && d > 0
    ensures a / d <= b / d
  {
    assert (a / d) * d <= a;
    DivAtLeast(a / d, b, d);
  }

  lemma DivAtLeast(q: int, a: int, d: int)
    requires d >= 1 && q * d <= a
    ensures q <= a / d
  {
    var r := a / d;
    assert a == r * d + a % d;
    assert q * d < (r + 1) * d;
    LtMulCancel(q, r + 1, d);
  }

  /** For values below 2^31 the engine's `(r|g|b) > 255` test is the test
      that some channel exceeds 255. */
  lemma OrExceedsByte(x: bv32, y: bv32, z: bv32)
    ensures ((x | y | z) > 255) == (x > 255 || y > 255 || z > 255)
  {
  }

  /** Without overflow every channel is its input shifted left. */
  lemma ColorShiftPlain(r0: byte, g0: byte, b0: byte, shift: nat)
    requires Max3(r0 * Pow2(shift), g0 * Pow2(shift), b0 * Pow2(shift)) <= 255
    ensures ShiftedColor(r0, g0, b0, shift) == [r0 * Pow2(shift), g0 * Pow2(shift), b0 * Pow2(shift)]
  {
  }

  /** With overflow the largest channel becomes exactly 255 and the order of
      the channels is kept. */
  lemma ColorShiftNormalised(r0: byte, g0: byte, b0: byte, shift: nat)
    requires Max3(r0 * Pow2(shift), g0 * Pow2(shift), b0 * Pow2(shift)) > 255
    ensures var c := ShiftedColor(r0, g0, b0, shift);
            var i := [r0, g0, b0];
            (exists k :: 0 <= k < 3 && c[k] == 255) &&
            forall k, l :: 0 <= k < 3 && 0 <= l < 3 && i[k] <= i[l] ==> c[k] <= c[l]
  {
    var p := Pow2(shift);
    var s := [r0 * p, g0 * p, b0 * p];
    var i := [r0, g0, b0];
    var c := ShiftedColor(r0, g0, b0, shift);
    assert c == Scaled(s);
    forall k, l | 0 <= k < 3 && 0 <= l < 3 && i[k] <= i[l]
      ensures s[k] <= s[l]
    {
      MulMonotone(i[k], i[l], p);
    }
    forall k | 0 <= k < 3
      ensures s[k] >= 0
    {
      MulMonotone(0, i[k], p);
    }
    assert Max3(s[0], s[1], s[2]) > 0;
    ScaledProps(s);
  }

  /** Each of three non-negative channels scaled by 255 / the largest. */
  function Scaled(s: seq<int>): seq<int>
    requires |s| == 3 && Max3(s[0], s[1], s[2]) > 0
  {
    var m := Max3(s[0], s[1], s[2]);
    [s[0] * 255 / m, s[1] * 255 / m, s[2] * 255 / m]
  }

  lemma ScaledProps(s: seq<int>)
    requires |s| == 3 && Max3(s[0], s[1], s[2]) > 0 && forall k :: 0 <= k < 3 ==> s[k] >= 0
    ensures exists k :: 0 <= k < 3 && Scaled(s)[k] == 255
    ensures forall k, l :: 0 <= k < 3 && 0 <= l < 3 && s[k] <= s[l] ==> Scaled(s)[k] <= Scaled(s)[l]
  {
    var m := Max3(s[0], s[1], s[2]);
    var c := Scaled(s);
    ScaleMax(m);
    assert m == s[0] || m == s[1] || m == s[2];
    forall k, l | 0 <= k < 3 && 0 <= l < 3 && s[k] <= s[l]
      ensures c[k] <= c[l]
    {
      MulMonotone(s[k], s[l], 255);
      DivMonotone(s[k] * 255, s[l] * 255, m);
    }
  }

  lemma MulMonotone(a: int, b: int, p: int)
    requires 0 <= a <= b && p >= 0
    ensures a * p <= b * p
  {
  }

  /**
   * R_ColorShiftLightingBytes without greyscale: the first three bytes of
   * `output` take the shifted colour of `input`, and the fourth the input's
   * alpha when `hasAlpha`. The channels are read before anything is
   * written, so `input` and `output` may be the same array.
   */
  method ColorShiftLightingBytes(input: array<byte>, output: array<byte>, hasAlpha: bool,
                                 mapOverBrightBits: int, overbrightBits: int)
    requires input.Length == 4 && output.Length == 4
    modifies output
    ensures output[..3] == ShiftedColor(old(input[0]), old(input[1]), old(input[2]),
                                        OverbrightShift(mapOverBrightBits, overbrightBits))
    ensures output[3] == if hasAlpha then old(input[3]) else old(output[3])
  {
    var shift := if mapOverBrightBits - overbrightBits > 0 then mapOverBrightBits - overbrightBits else 0;
    var r := input[0] * Pow2(shift);
    var g := input[1] * Pow2(shift);
    var b := input[2] * Pow2(shift);
    if r > 255 || g > 255 || b > 255 {
      var m := if r > g then r else g;
      m := if m > b then m else b;
      ScaleBelow(r, m);
      ScaleBelow(g, m);
      ScaleBelow(b, m);
      r := r * 255 / m;
      g := g * 255 / m;
      b := b * 255 / m;
    }
    output[0] := r;
    output[1] := g;
    output[2] := b;
    if hasAlpha {
      output[3] := input[3];
    }
    assert output[..3] == [r, g, b];
  }

  // ---------------------------------------------------------------------
  // Lightmaps

  const LIGHTMAP_SIZE: int := 128

  /** FatLightmap: with the atlas in use every lightmap is page 0; negative
      numbers (no lightmap, vertex lighting) pass through. */
  function FatLightmap(lightmapnum: int, atlasWidth: int): (r: int)
    ensures r == lightmapnum || (lightmapnum >= 0 && r == 0)
    ensures (r < 0) <==> (lightmapnum < 0)
    ensures lightmapnum >= 0 && atlasWidth > 0 ==> r == 0
    ensures atlasWidth <= 0 ==> r == lightmapnum
  {
    if lightmapnum < 0 then lightmapnum
    else if atlasWidth > 0 then 0
    else lightmapnum
  }

  lemma FatLightmapIdempotent(lightmapnum: int, atlasWidth: int)
    ensures FatLightmap(FatLightmap(lightmapnum, atlasWidth), atlasWidth) == FatLightmap(lightmapnum, atlasWidth)
  {
  }

  /** Lightmaps in an internal lightmap lump of `len` bytes. */
  function InternalLightmapCount(len: int): (n: int)
    requires len >= 0
    ensures n >= 0 && n * (LIGHTMAP_SIZE * LIGHTMAP_SIZE * 3) <= len < (n + 1) * (LIGHTMAP_SIZE * LIGHTMAP_SIZE * 3)
  {
    len / (LIGHTMAP_SIZE * LIGHTMAP_SIZE * 3)
  }

  /** With external lightmaps: 1 + the highest lightmap number any surface
      names, at least 0. */
  method ExternalLightmapCount(lightmapNums: seq<seq<int>>) returns (n: int)
    ensures n >= 0
    ensures forall s, j :: 0 <= s < |lightmapNums| && 0 <= j < |lightmapNums[s]| ==> lightmapNums[s][j] < n
    ensures n == 0 || exists s, j :: 0 <= s < |lightmapNums| && 0 <= j < |lightmapNums[s]| && lightmapNums[s][j] == n - 1
  {
    n := 0;
    for s := 0 to |lightmapNums|
      invariant n >= 0
      invariant forall t, j :: 0 <= t < s && 0 <= j < |lightmapNums[t]| ==> lightmapNums[t][j] < n
      invariant n == 0 || exists t, j :: 0 <= t < s && 0 <= j < |lightmapNums[t]| && lightmapNums[t][j] == n - 1
    {
      for j := 0 to |lightmapNums[s]|
        invariant n >= 0
        invariant forall t, k :: 0 <= t < s && 0 <= k < |lightmapNums[t]| ==> lightmapNums[t][k] < n
        invariant forall k :: 0 <= k < j ==> lightmapNums[s][k] < n
        invariant n == 0 || (exists t, k :: 0 <= t < s && 0 <= k < |lightmapNums[t]| && lightmapNums[t][k] == n - 1) ||
                            (exists k :: 0 <= k < j && lightmapNums[s][k] == n - 1)
      {
        if lightmapNums[s][j] + 1 > n {
          n := lightmapNums[s][j] + 1;
        }
      }
    }
  }

  ghost predicate IsPowerOfTwo(n: int)
    decreases if n > 0 then n else 0
  {
    n == 1 || (n > 1 && n % 2 == 0 && IsPowerOfTwo(n / 2))
  }

  /** The least t with t * t >= n: ceil(sqrt(n)). */
  function CeilSqrt(n: nat): (t: nat)
    ensures t * t >= n && (t == 0 || (t - 1) * (t - 1) < n)
  {
    CeilSqrtFrom(n, 0)
  }

  function CeilSqrtFrom(n: nat, t: nat): (r: nat)
    requires t == 0 || (t - 1) * (t - 1) < n
    ensures r * r >= n && (r == 0 || (r - 1) * (r - 1) < n)
    decreases n - t
  {
    if t * t >= n then t
    else
      SquareAtLeast(t);
      CeilSqrtFrom(n, t + 1)
  }

  lemma SquareAtLeast(t: nat)
    ensures t == 0 || t * t >= t
  {
  }

  /** The doubling loop: the least power of two at or above `target`. */
  method LightmapsPerX(target: int) returns (perX: int)
    ensures IsPowerOfTwo(perX) && perX >= 1 && perX >= target
    ensures perX == 1 || perX / 2 < target
  {
    perX := 1;
    while perX < target
      invariant IsPowerOfTwo(perX) && perX >= 1
      invariant perX == 1 || perX / 2 < target
      decreases target - perX
    {
      perX := perX * 2;
    }
  }

  /** Lightmap `i`'s tile in the atlas, in texels. */
  function TileOffset(i: int, perX: int): (int, int)
    requires perX >= 1
  {
    ((i % perX) * LIGHTMAP_SIZE, (i / perX) * LIGHTMAP_SIZE)
  }

  /** The atlas sizing of R_LoadLightmaps for internal lightmaps: tiles per
      row, rows, and the atlas size in texels; every lightmap's tile lies
      inside the atlas and no two share a tile. */
  method AtlasLayout(numLightmaps: nat) returns (perX: int, perY: int, width: int, height: int)
    requires numLightmaps > 0
    ensures IsPowerOfTwo(perX) && perX >= CeilSqrt(numLightmaps) && (perX == 1 || perX / 2 < CeilSqrt(numLightmaps))
    ensures perY == (numLightmaps + perX - 1) / perX
    ensures width == perX * LIGHTMAP_SIZE && height == perY * LIGHTMAP_SIZE
    ensures forall i :: 0 <= i < numLightmaps ==>
              0 <= TileOffset(i, perX).0 && TileOffset(i, perX).0 + LIGHTMAP_SIZE <= width &&
              0 <= TileOffset(i, perX).1 && TileOffset(i, perX).1 + LIGHTMAP_SIZE <= height
  {
    var target := CeilSqrt(numLightmaps);
    perX := LightmapsPerX(target);
    perY := (numLightmaps + perX - 1) / perX;
    width := perX * LIGHTMAP_SIZE;
    height := perY * LIGHTMAP_SIZE;
    forall i | 0 <= i < numLightmaps
      ensures 0 <= TileOffset(i, perX).0 && TileOffset(i, perX).0 + LIGHTMAP_SIZE <= width &&
              0 <= TileOffset(i, perX).1 && TileOffset(i, perX).1 + LIGHTMAP_SIZE <= height
    {
      TileInside(i, perX, numLightmaps);
    }
  }

  lemma TileInside(i: int, perX: int, n: int)
    requires perX >= 1 && 0 <= i < n
    ensures 0 <= i % perX < perX
    ensures 0 <= i / perX < (n + perX - 1) / perX
    ensures 0 <= TileOffset(i, perX).0 && TileOffset(i, perX).0 + LIGHTMAP_SIZE <= perX * LIGHTMAP_SIZE
    ensures 0 <= TileOffset(i, perX).1 && TileOffset(i, perX).1 + LIGHTMAP_SIZE <= (n + perX - 1) / perX * LIGHTMAP_SIZE
  {
    var q := i / perX;
    assert i == q * perX + i % perX;
    assert q * perX <= i <= n - 1;
    assert (q + 1) * perX <= n + perX - 1;
    DivAtLeast(q + 1, n + perX - 1, perX);
    MulMonotone(i % perX + 1, perX, LIGHTMAP_SIZE);
    MulMonotone(q + 1, (n + perX - 1) / perX, LIGHTMAP_SIZE);
  }


  /** Distinct lightmaps get distinct tiles. */
  lemma TileOffsetsDistinct(i: int, j: int, perX: int)
    requires perX >= 1 && 0 <= i && 0 <= j && i != j
    ensures TileOffset(i, perX) != TileOffset(j, perX)
  {
    assert i == (i / perX) * perX + i % perX;
    assert j == (j / perX) * perX + j % perX;
  }

  // ---------------------------------------------------------------------
  // R_LoadVisibility

  /** The novis buffer length `(numClusters + 63) & ~63`, on the 32-bit
      pattern of a non-negative cluster count. */
  function NovisLength(numClusters: bv32): bv32
  {
    (numClusters + 63) & !63
  }

  /** While numClusters + 63 stays a positive 32-bit int, the novis length is
      the least multiple of 64 at or above numClusters. */
  lemma NovisRoundsUp(numClusters: bv32)
    requires numClusters <= 0x7fff_ffc0
    ensures NovisLength(numClusters) % 64 == 0
    ensures numClusters <= NovisLength(numClusters) < numClusters + 64
  {
  }

  // ---------------------------------------------------------------------
  // R_LoadNodesAndLeafs

  /** A node's child reference: p >= 0 is node p, p < 0 is leaf -1-p, which
      is stored after the `numNodes` nodes. */
  function DecodeChild(p: int, numNodes: nat): (r: int)
    ensures p >= 0 ==> r == p
    ensures p < 0 ==> r >= numNodes && r - numNodes == -1 - p
  {
    if p >= 0 then p else numNodes + (-1 - p)
  }

  /** The child reference a slot of the node array came from. */
  function EncodeChild(slot: int, numNodes: nat): int
  {
    if slot < numNodes then slot else -1 - (slot - numNodes)
  }

  /** For references naming an existing node or any leaf, decoding is
      undone by encoding, so no two references share a slot, and a slot is a
      node exactly when the reference is non-negative. */
  lemma DecodeChildInjective(p: int, q: int, numNodes: nat)
    requires p < numNodes && q < numNodes
    ensures EncodeChild(DecodeChild(p, numNodes), numNodes) == p
    ensures DecodeChild(p, numNodes) == DecodeChild(q, numNodes) ==> p == q
    ensures (DecodeChild(p, numNodes) < numNodes) <==> p >= 0
  {
  }

  /** The leaf loop's cluster count: raised to one past every leaf's cluster. */
  method CountClusters(numClusters: int, clusters: seq<int>) returns (n: int)
    ensures n >= numClusters
    ensures forall k :: 0 <= k < |clusters| ==> clusters[k] < n
    ensures n == numClusters || (exists k :: 0 <= k < |clusters| && clusters[k] == n - 1)
  {
    n := numClusters;
    for i := 0 to |clusters|
      invariant n >= numClusters
      invariant forall k :: 0 <= k < i ==> clusters[k] < n
      invariant n == numClusters || (exists k :: 0 <= k < i && clusters[k] == n - 1)
    {
      if clusters[i] >= n {
        n := clusters[i] + 1;
      }
    }
  }

  // ---------------------------------------------------------------------
  // ParseTriSurf

  const SHADER_MAX_VERTEXES: int := 1000
  const SHADER_MAX_INDEXES: int := 6000

  datatype TriSurfCheck = TooManyVerts | TooManyIndexes | BadIndex(at: int) | TriOk

  /** The first failing check of ParseTriSurf, in the order it makes them. */
  function CheckTriSurf(numVerts: int, indexes: seq<int>): (r: TriSurfCheck)
    ensures r == TriOk <==> numVerts < SHADER_MAX_VERTEXES && |indexes| < SHADER_MAX_INDEXES &&
                            forall i :: 0 <= i < |indexes| ==> 0 <= indexes[i] < numVerts
    ensures r.BadIndex? ==> 0 <= r.at < |indexes| && !(0 <= indexes[r.at] < numVerts) &&
                            forall i :: 0 <= i < r.at ==> 0 <= indexes[i] < numVerts
  {
    if numVerts >= SHADER_MAX_VERTEXES then TooManyVerts
    else if |indexes| >= SHADER_MAX_INDEXES then TooManyIndexes
    else match FirstBadIndex(numVerts, indexes, 0)
      case None => TriOk
      case Some(k) => BadIndex(k)
  }

  function FirstBadIndex(numVerts: int, indexes: seq<int>, from: nat): (r: Option<int>)
    requires from <= |indexes|
    ensures r.None? <==> forall i :: from <= i < |indexes| ==> 0 <= indexes[i] < numVerts
    ensures r.Some? ==> from <= r.value < |indexes| && !(0 <= indexes[r.value] < numVerts) &&
                        forall i :: from <= i < r.value ==> 0 <= indexes[i] < numVerts
    decreases |indexes| - from
  {
    if from == |indexes| then None
    else if !(0 <= indexes[from] < numVerts) then Some(from)
    else FirstBadIndex(numVerts, indexes, from + 1)
  }

  /** The count checks and the index copy loop of ParseTriSurf: the copy
      stops at the first index outside [0, numVerts). */
  method ParseTriIndexes(numVerts: int, indexes: seq<int>) returns (outcome: TriSurfCheck, copied: seq<int>)
    ensures outcome == CheckTriSurf(numVerts, indexes)
    ensures outcome == TriOk ==> copied == indexes
    ensures outcome.BadIndex? ==> copied == indexes[..outcome.at + 1]
  {
    copied := [];
    if numVerts >= SHADER_MAX_VERTEXES {
      return TooManyVerts, copied;
    }
    if |indexes| >= SHADER_MAX_INDEXES {
      return TooManyIndexes, copied;
    }
    for i := 0 to |indexes|
      invariant copied == indexes[..i]
      invariant FirstBadIndex(numVerts, indexes, 0) == FirstBadIndex(numVerts, indexes, i)
    {
      copied := copied + [indexes[i]];
      if indexes[i] < 0 || indexes[i] >= numVerts {
        return BadIndex(i), copied;
      }
    }
    assert copied == indexes;
    return TriOk, copied;
  }
}
