/** The spatial-pyramid auto colour correlogram feature (SPACC): a histogram of 5376
    entries, its compact byte form and the type check in front of its distance. */
module SpatialPyramid {
  import opened JavaInt
  import opened HistogramCodec
  import opened PyramidLayout

  /** The feature handed to `getDistance`: either another SPACC, seen through its
      feature vector, or a feature of some other kind. */
  datatype LireFeature =
    | SpaccFeature(vector: seq<int>)
    | OtherFeature(vector: seq<int>)

  class Spacc {
    /** The histogram; every entry is an integral `double` in the source. */
    var histogram: array<int>
    /** Scratch `int` shared by the encoder and the decoder. */
    var tmp: int

    ghost predicate Valid()
      reads this
    {
      histogram.Length == HistogramSize
    }

    /** A new feature: a zero histogram of 5376 entries. */
    constructor ()
      ensures Valid() && fresh(histogram)
      ensures histogram[..] == seq(HistogramSize, _ => 0) && tmp == 0
    {
      histogram := new int[HistogramSize](_ => 0);
      tmp := 0;
    }

    /** The compact form: 2688 bytes, each packing two histogram entries. */
    method GetByteArrayRepresentation() returns (result: array<Byte>)
      requires Valid()
      modifies this`tmp
      ensures Valid()
      ensures fresh(result) && result.Length == 2688
      ensures result[..] == Encode(histogram[..])
      ensures unchanged(histogram)
      ensures tmp == PackNibbles(histogram[HistogramSize - 2], histogram[HistogramSize - 1])
    {
      ghost var h := histogram[..];
      ghost var e := Encode(h);
      result := new Byte[HistogramSize / 2];
      var i := 0;
      while i < result.Length
        invariant 0 <= i <= result.Length
        invariant forall k :: 0 <= k < i ==> result[k] == e[k]
        invariant 0 < i ==> tmp == PackNibbles(h[2 * i - 2], h[2 * i - 1])
      {
        tmp := ShiftLeft4(IntCast(histogram[2 * i]));
        tmp := Or32(tmp, IntCast(histogram[2 * i + 1]));
        EncodeFromPacked(h, i, tmp);
        result[i] := ToByte(Wrap32(tmp - 128));
        i := i + 1;
      }
      assert result[..] == e;
    }

    /** Reads `length` bytes starting at `offset` into the first `2 * length` entries.
        A non-positive `length` reads nothing, whatever `offset` is. */
    method SetByteArrayRepresentationRange(bytes: array<Byte>, offset: int, length: int)
      requires Valid()
      requires length <= 0 || (0 <= offset && offset + length <= bytes.Length && 2 * length <= HistogramSize)
      modifies this`tmp, histogram
      ensures Valid()
      ensures 0 < length ==>
                histogram[..] == Decode(bytes[offset..offset + length]) + old(histogram[..])[2 * length..]
                && tmp == bytes[offset + length - 1] as int + 128
      ensures length <= 0 ==> histogram[..] == old(histogram[..]) && tmp == old(tmp)
    {
      ghost var bs := if length <= 0 then [] else bytes[offset..offset + length];
      ghost var k := 0;
      var i := offset;
      while i < offset + length
        invariant 0 <= k <= |bs| && i == offset + k
        invariant forall j :: 0 <= j < 2 * k ==> histogram[j] == DecodedEntry(bs, j)
        invariant forall j :: 2 * k <= j < histogram.Length ==> histogram[j] == old(histogram[j])
        invariant tmp == if k == 0 then old(tmp) else bs[k - 1] as int + 128
      {
        assert bs[k] == bytes[i];
        tmp := bytes[i] as int + 128;
        histogram[2 * (i - offset) + 1] := AndLow4(tmp);
        histogram[2 * (i - offset)] := ShiftRight4(tmp);
        i := i + 1;
        k := k + 1;
      }
      DecodedInto(histogram[..], old(histogram[..]), bs);
    }

    /** Reads a whole byte array: the same as reading it from offset 0 for its length. */
    method SetByteArrayRepresentation(bytes: array<Byte>)
      requires Valid() && 2 * bytes.Length <= HistogramSize
      modifies this`tmp, histogram
      ensures Valid()
      ensures histogram[..] == Decode(bytes[..]) + old(histogram[..])[2 * bytes.Length..]
      ensures tmp == if 0 < bytes.Length then bytes[bytes.Length - 1] as int + 128 else old(tmp)
    {
      ghost var before := histogram[..];
      SetByteArrayRepresentationRange(bytes, 0, bytes.Length);
      if bytes.Length == 0 {
        assert histogram[..] == before == Decode(bytes[..]) + before[0..];
      } else {
        assert bytes[0..bytes.Length] == bytes[..];
      }
    }

    /** `-1` when the other feature is not a SPACC, its Tanimoto distance otherwise. */
    function GetDistance(feature: LireFeature, tanimoto: (seq<int>, seq<int>) -> real): (d: real)
      reads this, histogram
      ensures !feature.SpaccFeature? ==> d == -1.0
      ensures feature.SpaccFeature? ==> d == tanimoto(histogram[..], feature.vector)
    {
      if !feature.SpaccFeature? then -1.0 else tanimoto(histogram[..], feature.vector)
    }

    /** `System.arraycopy(src, 0, histogram, destPos, HistLength)`. */
    method ArrayCopy(src: seq<int>, destPos: int)
      requires Valid() && |src| >= HistLength && 0 <= destPos && destPos + HistLength <= HistogramSize
      modifies histogram
      ensures Valid()
      ensures histogram[..] == Overwrite(old(histogram[..]), destPos, src)
    {
      forall k | 0 <= k < HistLength {
        histogram[destPos + k] := src[k];
      }
    }

    /** The copies made by `extract`, as written, given the correlograms of the whole
        image, of its four quadrants (top left, top right, bottom left, bottom right)
        and of the 4 x 4 grid (`level2[4 * i + j]` for column `i`, row `j`). */
    method Extract(level0: seq<int>, level1: seq<seq<int>>, level2: seq<seq<int>>)
      requires Valid() && ExtractArgs(histogram[..], level0, level1, level2)
      modifies histogram
      ensures Valid()
      ensures histogram[..] == ExtractAsWritten(old(histogram[..]), level0, level1, level2)
    {
      CopyCoarseLevels(level0, level1);
      var binPos := 0;
      CopyGrid(level2, binPos);
    }

    /** `extract` with the block counter starting after the five coarse blocks. */
    method ExtractPyramid(level0: seq<int>, level1: seq<seq<int>>, level2: seq<seq<int>>)
      requires Valid() && ExtractArgs(histogram[..], level0, level1, level2)
      modifies histogram
      ensures Valid()
      ensures histogram[..] == ExtractCorrected(old(histogram[..]), level0, level1, level2)
    {
      CopyCoarseLevels(level0, level1);
      var binPos := 5;
      CopyGrid(level2, binPos);
    }

    /** Level 0 into block 0 and the four quadrants into blocks 1..4. */
    method CopyCoarseLevels(level0: seq<int>, level1: seq<seq<int>>)
      requires Valid() && |level0| >= HistLength && |level1| == 4 && Covers(level1)
      modifies histogram
      ensures Valid()
      ensures Covers([level0] + level1)
      ensures histogram[..] == CopyBlocks(old(histogram[..]), [level0] + level1, 0, 5)
    {
      ghost var h := histogram[..];
      ghost var vs := [level0] + level1;
      assert Covers(vs);
      ArrayCopy(level0, 0);
      assert histogram[..] == CopyBlocks(h, vs, 0, 1);
      ArrayCopy(level1[0], HistLength * 1);
      assert histogram[..] == CopyBlocks(h, vs, 0, 2);
      ArrayCopy(level1[1], HistLength * 2);
      assert histogram[..] == CopyBlocks(h, vs, 0, 3);
      ArrayCopy(level1[2], HistLength * 3);
      assert histogram[..] == CopyBlocks(h, vs, 0, 4);
      ArrayCopy(level1[3], HistLength * 4);
    }

    /** The nested loops over the 4 x 4 grid, copying region `(i, j)` into block
        `binPos` and counting `binPos` up by one per region. */
    method CopyGrid(level2: seq<seq<int>>, binPos0: nat)
      requires Valid() && |level2| == 16 && Covers(level2) && (binPos0 + 16) * HistLength <= HistogramSize
      modifies histogram
      ensures Valid()
      ensures histogram[..] == CopyBlocks(old(histogram[..]), level2, binPos0, 16)
    {
      ghost var h := histogram[..];
      var binPos := binPos0;
      for i := 0 to 4
        invariant binPos == binPos0 + 4 * i
        invariant histogram[..] == CopyBlocks(h, level2, binPos0, 4 * i)
      {
        for j := 0 to 4
          invariant binPos == binPos0 + 4 * i + j
          invariant histogram[..] == CopyBlocks(h, level2, binPos0, 4 * i + j)
        {
          ArrayCopy(level2[4 * i + j], HistLength * binPos);
          binPos := binPos + 1;
        }
      }
    }
  }

  /** Storing a histogram of nibbles and reading the 2688 bytes back into any feature
      restores the histogram: the state `SetByteArrayRepresentation` leaves after
      `GetByteArrayRepresentation` returned `Encode(h)`. */
  lemma HistogramRoundTrip(h: seq<int>, before: seq<int>)
    requires |h| == HistogramSize && |before| == HistogramSize && AllNibbles(h)
    ensures Decode(Encode(h)) + before[2 * |Encode(h)|..] == h
  {
    DecodeEncode(h);
    assert before[HistogramSize..] == [];
  }

  /** Reading a full 2688-byte array into any feature and storing the histogram again
      reproduces the array. */
  lemma BytesRoundTrip(bytes: seq<Byte>, before: seq<int>)
    requires |bytes| == HistogramSize / 2 && |before| == HistogramSize
    ensures Encode(Decode(bytes) + before[2 * |bytes|..]) == bytes
  {
    EncodeDecode(bytes);
    assert before[HistogramSize..] == [];
    assert Decode(bytes) + [] == Decode(bytes);
  }

  /** The `-1` sentinel cannot be mistaken for a distance: when the Tanimoto distance is
      never negative, `getDistance` returns `-1` exactly for features of another kind. */
  lemma SentinelOnlyOnMismatch(s: Spacc, feature: LireFeature, tanimoto: (seq<int>, seq<int>) -> real)
    requires forall a, b :: 0.0 <= tanimoto(a, b)
    ensures s.GetDistance(feature, tanimoto) == -1.0 <==> !feature.SpaccFeature?
  {
  }
}
