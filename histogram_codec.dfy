/** The 4-bit histogram codec of the spatial-pyramid colour correlogram: two histogram
    entries per byte, the even entry in the high nibble and the odd entry in the low
    nibble, shifted down by 128 so that the value fits Java's signed `byte`. */
module HistogramCodec {
  import opened JavaInt
  import opened SeqFacts

  /** An entry the codec stores without loss: an integer in [0, 15]. */
  predicate IsNibble(x: int) {
    0 <= x < 16
  }

  predicate AllNibbles(h: seq<int>) {
    forall k :: 0 <= k < |h| ==> IsNibble(h[k])
  }

  /** The `int` the encoder leaves in its scratch variable for one pair of entries:
      `((int) high) << 4`, OR-ed with `(int) low`. */
  function PackNibbles(high: int, low: int): (tmp: int)
    ensures IsInt32(tmp)
  {
    Or32(ShiftLeft4(IntCast(high)), IntCast(low))
  }

  /** The byte the encoder stores for one pair of entries: `(byte) (tmp - 128)`. */
  function EncodePair(high: int, low: int): (b: Byte)
  {
    ToByte(Wrap32(PackNibbles(high, low) - 128))
  }

  /** The decoder's even entry for byte `b`: `(b + 128) >> 4`. */
  function HighNibble(b: Byte): (h: int)
    ensures IsNibble(h)
  {
    ShiftRight4(b as int + 128)
  }

  /** The decoder's odd entry for byte `b`: `(b + 128) & 0xF`. */
  function LowNibble(b: Byte): (l: int)
    ensures IsNibble(l)
  {
    AndLow4(b as int + 128)
  }

  /** Within the nibble range the packed `int` is plain arithmetic and the stored byte
      is that value minus 128. */
  lemma PackInRange(high: int, low: int)
    requires IsNibble(high) && IsNibble(low)
    ensures PackNibbles(high, low) == 16 * high + low
    ensures EncodePair(high, low) == 16 * high + low - 128
  {
    OrDisjointNibbles(high, low);
  }

  /** Decoding a byte gives back the pair of nibbles it was encoded from. */
  lemma UnpackPack(high: int, low: int)
    requires IsNibble(high) && IsNibble(low)
    ensures HighNibble(EncodePair(high, low)) == high
    ensures LowNibble(EncodePair(high, low)) == low
  {
    PackInRange(high, low);
  }

  /** Encoding the two nibbles decoded from a byte gives back that byte. */
  lemma PackUnpack(b: Byte)
    ensures EncodePair(HighNibble(b), LowNibble(b)) == b
  {
    ShiftRightAndLow4(b as int + 128);
    PackInRange(HighNibble(b), LowNibble(b));
  }

  /** Applies `pack` to consecutive pairs of entries: byte `i` comes from entries `2i`
      and `2i+1`. */
  function PackPairs(h: seq<int>, pack: (int, int) -> Byte): (bytes: seq<Byte>)
    requires |h| % 2 == 0
    ensures |bytes| == |h| / 2
    decreases |h|
  {
    if h == [] then []
    else PackPairs(h[..|h| - 2], pack) + [pack(h[|h| - 2], h[|h| - 1])]
  }

  /** The byte array of a histogram of even length, one `EncodePair` per pair of entries. */
  function Encode(h: seq<int>): (bytes: seq<Byte>)
    requires |h| % 2 == 0
    ensures |bytes| == |h| / 2
  {
    PackPairs(h, EncodePair)
  }

  /** The histogram entries decoded from a byte array: two per byte, each in [0, 15]. */
  function Decode(bytes: seq<Byte>): (h: seq<int>)
    ensures |h| == 2 * |bytes|
    ensures AllNibbles(h)
    decreases |bytes|
  {
    if bytes == [] then []
    else Decode(bytes[..|bytes| - 1]) + [HighNibble(bytes[|bytes| - 1]), LowNibble(bytes[|bytes| - 1])]
  }

  /** `pack` is undone by the decoder on every pair of nibbles. */
  ghost predicate UnpacksNibbles(pack: (int, int) -> Byte) {
    forall a, b | IsNibble(a) && IsNibble(b) :: HighNibble(pack(a, b)) == a && LowNibble(pack(a, b)) == b
  }

  /** `pack` rebuilds every byte from the two nibbles the decoder reads out of it. */
  ghost predicate RepacksBytes(pack: (int, int) -> Byte) {
    forall b: Byte :: pack(HighNibble(b), LowNibble(b)) == b
  }

  /** Decoding one more byte appends its two nibbles. */
  lemma DecodeSnoc(bytes: seq<Byte>, b: Byte)
    ensures Decode(bytes + [b]) == Decode(bytes) + [HighNibble(b), LowNibble(b)]
  {
    assert (bytes + [b])[..|bytes|] == bytes;
  }

  /** Byte `i` of the packed array comes from the pair at entries `2i` and `2i+1`. */
  lemma {:induction false} PackPairsAt(h: seq<int>, pack: (int, int) -> Byte, i: int)
    requires |h| % 2 == 0 && 0 <= i < |h| / 2
    ensures PackPairs(h, pack)[i] == pack(h[2 * i], h[2 * i + 1])
    decreases |h|
  {
    var n := |h| - 2;
    if 2 * i < n {
      PackPairsAt(h[..n], pack, i);
    }
  }

  /** Byte `i` of the encoding is the pair at entries `2i` and `2i+1`. */
  lemma EncodeAt(h: seq<int>, i: int)
    requires |h| % 2 == 0 && 0 <= i < |h| / 2
    ensures Encode(h)[i] == EncodePair(h[2 * i], h[2 * i + 1])
  {
    PackPairsAt(h, EncodePair, i);
  }

  /** What one step of the encoding loop computes in `tmp` gives byte `i` of the encoding. */
  lemma EncodeFromPacked(h: seq<int>, i: int, tmp: int)
    requires |h| % 2 == 0 && 0 <= i < |h| / 2
    requires tmp == Or32(ShiftLeft4(IntCast(h[2 * i])), IntCast(h[2 * i + 1]))
    ensures tmp == PackNibbles(h[2 * i], h[2 * i + 1])
    ensures ToByte(Wrap32(tmp - 128)) == Encode(h)[i]
  {
    EncodeAt(h, i);
  }

  /** Byte `i` decodes to `(b + 128) >> 4` at entry `2i` and `(b + 128) & 0xF` at `2i+1`. */
  lemma {:induction false} DecodeAt(bytes: seq<Byte>, i: int)
    requires 0 <= i < |bytes|
    ensures Decode(bytes)[2 * i] == HighNibble(bytes[i]) == (bytes[i] as int + 128) / 16
    ensures Decode(bytes)[2 * i + 1] == LowNibble(bytes[i]) == (bytes[i] as int + 128) % 16
    decreases |bytes|
  {
    var n := |bytes| - 1;
    if i < n {
      DecodeAt(bytes[..n], i);
    }
  }

  /** Entry `j` of the decoded histogram: the high nibble of byte `j / 2` when `j` is even,
      its low nibble when `j` is odd. */
  function DecodedEntry(bytes: seq<Byte>, j: int): (e: int)
    requires 0 <= j < 2 * |bytes|
    ensures IsNibble(e)
  {
    if j % 2 == 0 then HighNibble(bytes[j / 2]) else LowNibble(bytes[j / 2])
  }

  /** The decoder's entries, one index at a time. */
  lemma DecodeEntry(bytes: seq<Byte>, j: int)
    requires 0 <= j < 2 * |bytes|
    ensures Decode(bytes)[j] == DecodedEntry(bytes, j)
  {
    DecodeAt(bytes, j / 2);
    if j % 2 == 0 { assert j == 2 * (j / 2); } else { assert j == 2 * (j / 2) + 1; }
  }

  /** A histogram whose first `2 * |bytes|` entries are the decoder's entries for `bytes`
      starts with the decoding of `bytes`. */
  lemma DecodedPrefix(h: seq<int>, bytes: seq<Byte>)
    requires 2 * |bytes| <= |h|
    requires forall j :: 0 <= j < 2 * |bytes| ==> h[j] == DecodedEntry(bytes, j)
    ensures h[..2 * |bytes|] == Decode(bytes)
  {
    forall j | 0 <= j < 2 * |bytes|
      ensures h[j] == Decode(bytes)[j]
    {
      DecodeEntry(bytes, j);
    }
  }

  /** Two histograms that agree from index `n` on have the same tail. */
  lemma SameTail(h: seq<int>, h0: seq<int>, n: int)
    requires |h| == |h0| && 0 <= n <= |h|
    requires forall j :: n <= j < |h| ==> h[j] == h0[j]
    ensures h[n..] == h0[n..]
  {
  }

  /** The histogram left by the decoder: the decoding of `bytes`, then the untouched rest. */
  lemma DecodedInto(h: seq<int>, h0: seq<int>, bytes: seq<Byte>)
    requires |h| == |h0| && 2 * |bytes| <= |h|
    requires forall j :: 0 <= j < 2 * |bytes| ==> h[j] == DecodedEntry(bytes, j)
    requires forall j :: 2 * |bytes| <= j < |h| ==> h[j] == h0[j]
    ensures h == Decode(bytes) + h0[2 * |bytes|..]
  {
    var n := 2 * |bytes|;
    DecodedPrefix(h, bytes);
    SameTail(h, h0, n);
    SplitAt(h, n);
  }

  /** Every encoded byte of a pair of nibbles is `((h[2i] << 4) | h[2i+1]) - 128`. */
  lemma EncodeNibbles(h: seq<int>, i: int)
    requires |h| % 2 == 0 && 0 <= i < |h| / 2
    requires IsNibble(h[2 * i]) && IsNibble(h[2 * i + 1])
    ensures Encode(h)[i] == 16 * h[2 * i] + h[2 * i + 1] - 128
  {
    EncodeAt(h, i);
    PackInRange(h[2 * i], h[2 * i + 1]);
  }

  /** Decoding undoes any pair packing that the decoder inverts on nibbles. */
  lemma {:induction false} DecodePackPairs(h: seq<int>, pack: (int, int) -> Byte)
    requires |h| % 2 == 0 && AllNibbles(h) && UnpacksNibbles(pack)
    ensures Decode(PackPairs(h, pack)) == h
    decreases |h|
  {
    if h != [] {
      var n := |h| - 2;
      var front := h[..n];
      assert AllNibbles(front);
      DecodePackPairs(front, pack);
      DecodeSnoc(PackPairs(front, pack), pack(h[n], h[n + 1]));
      SplitLastTwo(h);
    }
  }

  /** Packing what the decoder read gives back the bytes, for a packing that rebuilds
      every byte from its nibbles. */
  lemma {:induction false} PackPairsDecode(bytes: seq<Byte>, pack: (int, int) -> Byte)
    requires RepacksBytes(pack)
    ensures PackPairs(Decode(bytes), pack) == bytes
    decreases |bytes|
  {
    if bytes != [] {
      var n := |bytes| - 1;
      var d := Decode(bytes);
      assert |d| == 2 * n + 2;
      assert d[..|d| - 2] == Decode(bytes[..n]);
      PackPairsDecode(bytes[..n], pack);
      SplitLast(bytes);
    }
  }

  /** Round trip: a histogram whose entries are all nibbles is restored exactly. */
  lemma {:induction false} DecodeEncode(h: seq<int>)
    requires |h| % 2 == 0 && AllNibbles(h)
    ensures Decode(Encode(h)) == h
  {
    forall a, b | IsNibble(a) && IsNibble(b)
      ensures HighNibble(EncodePair(a, b)) == a && LowNibble(EncodePair(a, b)) == b
    {
      UnpackPack(a, b);
    }
    DecodePackPairs(h, EncodePair);
  }

  /** Round trip the other way: every byte array is reproduced by encoding what it
      decodes to. */
  lemma {:induction false} EncodeDecode(bytes: seq<Byte>)
    ensures Encode(Decode(bytes)) == bytes
  {
    forall b: Byte
      ensures EncodePair(HighNibble(b), LowNibble(b)) == b
    {
      PackUnpack(b);
    }
    PackPairsDecode(bytes, EncodePair);
  }

  /** The boundary values: [15, 0, 0, 15] is stored as [112, -113] and read back. */
  lemma EncodeExample()
    ensures Encode([15, 0, 0, 15]) == [112, -113]
    ensures Decode([112, -113]) == [15, 0, 0, 15]
  {
    PackInRange(15, 0);
    PackInRange(0, 15);
  }
}
