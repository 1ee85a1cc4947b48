/** Where `extract` puts the correlogram of each image region: 21 blocks of 256 entries
    (level 0: the whole image; level 1: four quadrants; level 2: a 4 x 4 grid). */
module PyramidLayout {

  /** Entries taken from each region's correlogram. */
  const HistLength: int := 256

  /** 5 blocks for levels 0 and 1, 16 blocks for level 2: 5376 entries. */
  const HistogramSize: int := HistLength * 5 + HistLength * 4 * 4

  /** Every region vector has at least a block's worth of entries. */
  ghost predicate Covers(vs: seq<seq<int>>) {
    forall k :: 0 <= k < |vs| ==> |vs[k]| >= HistLength
  }

  /** `System.arraycopy(src, 0, h, pos, HistLength)`, on values: block `[pos, pos + 256)`
      takes the head of `src`, everything else stays. */
  function Overwrite(h: seq<int>, pos: int, src: seq<int>): (r: seq<int>)
    requires 0 <= pos && pos + HistLength <= |h| && |src| >= HistLength
    ensures |r| == |h|
  {
    h[..pos] + src[..HistLength] + h[pos + HistLength..]
  }

  /** The first `count` copies `vs[0]`, `vs[1]`, ... made in that order into consecutive
      blocks, the first at block number `first`. */
  function CopyBlocks(h: seq<int>, vs: seq<seq<int>>, first: nat, count: nat): (r: seq<int>)
    requires Covers(vs) && count <= |vs| && (first + count) * HistLength <= |h|
    ensures |r| == |h|
  {
    if count == 0 then h
    else Overwrite(CopyBlocks(h, vs, first, count - 1), (first + count - 1) * HistLength, vs[count - 1])
  }

  /** The head block of every vector, concatenated in order. */
  function Blocks(vs: seq<seq<int>>): (r: seq<int>)
    requires Covers(vs)
    ensures |r| == |vs| * HistLength
    decreases |vs|
  {
    if vs == [] then [] else Blocks(vs[..|vs| - 1]) + vs[|vs| - 1][..HistLength]
  }

  /** Block `b` of the concatenation is the head of vector `b`. */
  lemma {:induction false} BlocksAt(vs: seq<seq<int>>, b: int, k: int)
    requires Covers(vs) && 0 <= b < |vs| && 0 <= k < HistLength
    ensures Blocks(vs)[b * HistLength + k] == vs[b][k]
    decreases |vs|
  {
    var n := |vs| - 1;
    if b < n {
      BlocksAt(vs[..n], b, k);
    }
  }

  /** Consecutive copies fill their blocks with the heads of the vectors and leave the
      entries before and after them alone. */
  lemma {:induction false} CopyBlocksLayout(h: seq<int>, vs: seq<seq<int>>, first: nat, count: nat)
    requires Covers(vs) && count <= |vs| && (first + count) * HistLength <= |h|
    ensures Covers(vs[..count])
    ensures CopyBlocks(h, vs, first, count)
            == h[..first * HistLength] + Blocks(vs[..count]) + h[(first + count) * HistLength..]
  {
    if count != 0 {
      var n := count - 1;
      var p := (first + n) * HistLength;
      var prev := CopyBlocks(h, vs, first, n);
      CopyBlocksLayout(h, vs, first, n);
      assert vs[..count][..n] == vs[..n];
      assert prev[..p] == h[..first * HistLength] + Blocks(vs[..n]);
      assert prev[p + HistLength..] == h[(first + count) * HistLength..];
    } else {
      assert vs[..0] == [];
    }
  }

  /** The argument conditions under which `extract`'s copies stay inside the histogram. */
  ghost predicate ExtractArgs(h: seq<int>, level0: seq<int>, level1: seq<seq<int>>, level2: seq<seq<int>>) {
    |h| == HistogramSize && |level0| >= HistLength && |level1| == 4 && |level2| == 16
    && Covers(level1) && Covers(level2)
  }

  /** The histogram after the copies `extract` makes as written: levels 0 and 1 into
      blocks 0..4, then the level-2 grid into blocks 0..15, because its block counter
      starts at 0. */
  function ExtractAsWritten(h: seq<int>, level0: seq<int>, level1: seq<seq<int>>, level2: seq<seq<int>>): (r: seq<int>)
    requires ExtractArgs(h, level0, level1, level2)
    ensures |r| == HistogramSize
  {
    assert Covers([level0] + level1);
    CopyBlocks(CopyBlocks(h, [level0] + level1, 0, 5), level2, 0, 16)
  }

  /** The histogram after the copies with the block counter starting at the first free
      block, 5: the level-2 grid goes into blocks 5..20. */
  function ExtractCorrected(h: seq<int>, level0: seq<int>, level1: seq<seq<int>>, level2: seq<seq<int>>): (r: seq<int>)
    requires ExtractArgs(h, level0, level1, level2)
    ensures |r| == HistogramSize
  {
    assert Covers([level0] + level1);
    CopyBlocks(CopyBlocks(h, [level0] + level1, 0, 5), level2, 5, 16)
  }

  /** As written, the level-2 copies land on top of levels 0 and 1: the histogram holds
      only the sixteen level-2 blocks, and its last 1280 entries keep whatever they held
      before `extract`. */
  lemma ExtractKeepsOnlyLevel2(h: seq<int>, level0: seq<int>, level1: seq<seq<int>>, level2: seq<seq<int>>)
    requires ExtractArgs(h, level0, level1, level2)
    ensures ExtractAsWritten(h, level0, level1, level2) == Blocks(level2) + h[16 * HistLength..]
  {
    var coarse := [level0] + level1;
    assert Covers(coarse);
    CopyBlocksLayout(h, coarse, 0, 5);
    var h1 := CopyBlocks(h, coarse, 0, 5);
    CopyBlocksLayout(h1, level2, 0, 16);
    assert coarse[..5] == coarse && level2[..16] == level2;
    assert h1[16 * HistLength..] == h[16 * HistLength..];
  }

  /** As written, the result does not depend on the whole-image or quadrant correlograms
      at all. */
  lemma ExtractIgnoresCoarseLevels(h: seq<int>, level0: seq<int>, level1: seq<seq<int>>,
                                   other0: seq<int>, other1: seq<seq<int>>, level2: seq<seq<int>>)
    requires ExtractArgs(h, level0, level1, level2) && ExtractArgs(h, other0, other1, level2)
    ensures ExtractAsWritten(h, level0, level1, level2) == ExtractAsWritten(h, other0, other1, level2)
  {
    ExtractKeepsOnlyLevel2(h, level0, level1, level2);
    ExtractKeepsOnlyLevel2(h, other0, other1, level2);
  }

  /** With the counter starting at 5, all 21 regions are stored in pyramid order and
      nothing of the previous histogram survives. */
  lemma ExtractCorrectedLayout(h: seq<int>, level0: seq<int>, level1: seq<seq<int>>, level2: seq<seq<int>>)
    requires ExtractArgs(h, level0, level1, level2)
    ensures ExtractCorrected(h, level0, level1, level2) == Blocks([level0] + level1 + level2)
  {
    var coarse := [level0] + level1;
    assert Covers(coarse);
    CopyBlocksLayout(h, coarse, 0, 5);
    var h1 := CopyBlocks(h, coarse, 0, 5);
    CopyBlocksLayout(h1, level2, 5, 16);
    assert coarse[..5] == coarse && level2[..16] == level2;
    BlocksAppend(coarse, level2);
  }

  lemma {:induction false} BlocksAppend(xs: seq<seq<int>>, ys: seq<seq<int>>)
    requires Covers(xs) && Covers(ys)
    ensures Covers(xs + ys) && Blocks(xs + ys) == Blocks(xs) + Blocks(ys)
    decreases |ys|
  {
    if ys != [] {
      var n := |ys| - 1;
      assert (xs + ys)[..|xs + ys| - 1] == xs + ys[..n];
      BlocksAppend(xs, ys[..n]);
      assert Blocks(xs + ys) == Blocks(xs + ys[..n]) + ys[n][..HistLength];
    } else {
      assert xs + ys == xs;
    }
  }
}
