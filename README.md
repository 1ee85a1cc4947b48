# SPACC histogram codec, pyramid layout and distance sentinel

A Dafny model of the spatial-pyramid auto colour correlogram feature (`SPACC`) of LIRE.
The feature holds a histogram of 5376 entries:

- 256 entries for the whole image;
- 256 for each of the four quadrants;
- 256 for each cell of a 4 x 4 grid.

The model covers four parts of `SPACC.java`:

- **Byte codec.** `getByteArrayRepresentation` packs two entries into one signed byte: the even entry is the high nibble, the odd entry the low nibble, minus 128. Both `setByteArrayRepresentation` overloads unpack the bytes back into the histogram in place. Both directions pass through the shared scratch field `tmp`.
- **Distance sentinel.** `getDistance` returns `-1` for a feature of another kind.
- **Extract layout.** `extract` places the 21 region correlograms into the histogram with `System.arraycopy`.
- **Java integer semantics** on unbounded integers (`java_int.dfy`, module `JavaInt`):
  - the `(int)` and `(byte)` casts;
  - `<< 4`, `>> 4`, `& 0xF`;
  - `|` on 32-bit values;
  - 32-bit wrap-around of `int` arithmetic.

Layout of the project:

- `histogram_codec.dfy` (module `HistogramCodec`) defines the specification functions `Encode` and `Decode` on sequences. It proves both round trips: `Decode(Encode(h)) == h` for histograms of nibbles, and `Encode(Decode(b)) == b` for every byte sequence.
- `pyramid_layout.dfy` (module `PyramidLayout`) specifies the block copies of `extract`.
- `spacc.dfy` (module `SpatialPyramid`) has the class `Spacc`. Its fields are the `histogram` array and `tmp`. Its methods are the Java loops, each proved against the functions above.
- `seq_facts.dfy` (module `SeqFacts`) holds generic facts about splitting sequences.

Histogram entries are Java `double`s. The codec only ever reads their `(int)` value and writes integers, so the model stores them as `int`.

## Model

| member | source | states |
|---|---|---|
| JavaInt.Wrap32 | src/main/java/net/semanticmetadata/lire/imageanalysis/features/global/spatialpyramid/SPACC.java:108-110 | Java `int` arithmetic: the result is a 32-bit value, equal to the input when that already fits |
| JavaInt.IntCast | src/main/java/net/semanticmetadata/lire/imageanalysis/features/global/spatialpyramid/SPACC.java:108-109 | `(int)` of an integral double: identity on the int range, saturates at `Integer.MIN_VALUE` / `MAX_VALUE` outside it |
| JavaInt.ToByte | src/main/java/net/semanticmetadata/lire/imageanalysis/features/global/spatialpyramid/SPACC.java:110 | `(byte)` cast: the result lies in [-128, 127] and equals the input when that is already a byte |
| JavaInt.ShiftLeft4 | src/main/java/net/semanticmetadata/lire/imageanalysis/features/global/spatialpyramid/SPACC.java:108 | `x << 4` stays a Java int and equals `16 * x` when no bit is shifted out |
| JavaInt.ShiftRight4 | src/main/java/net/semanticmetadata/lire/imageanalysis/features/global/spatialpyramid/SPACC.java:129 | `x >> 4` is the floor of `x / 16` |
| JavaInt.AndLow4 | src/main/java/net/semanticmetadata/lire/imageanalysis/features/global/spatialpyramid/SPACC.java:128 | `x & 0x000F` lies in [0, 15] |
| JavaInt.ShiftRightAndLow4 | src/main/java/net/semanticmetadata/lire/imageanalysis/features/global/spatialpyramid/SPACC.java:127-129 | the two decoded halves recombine: `x == 16 * (x >> 4) + (x & 0xF)` |
| JavaInt.BitOr | src/main/java/net/semanticmetadata/lire/imageanalysis/features/global/spatialpyramid/SPACC.java:109 | bitwise or of naturals is at least each operand and at most their sum |
| JavaInt.BitOrBelowShift | src/main/java/net/semanticmetadata/lire/imageanalysis/features/global/spatialpyramid/SPACC.java:109 | or-ing a value below `2^k` into a multiple of `2^k` is addition |
| JavaInt.Or32 | src/main/java/net/semanticmetadata/lire/imageanalysis/features/global/spatialpyramid/SPACC.java:109 | `a \| b` on two Java ints is again a Java int |
| JavaInt.OrDisjointNibbles | src/main/java/net/semanticmetadata/lire/imageanalysis/features/global/spatialpyramid/SPACC.java:108-109 | `(high << 4) \| low` is `16 * high + low` for a low value below 16 |
| HistogramCodec.PackNibbles | src/main/java/net/semanticmetadata/lire/imageanalysis/features/global/spatialpyramid/SPACC.java:108-109 | the value left in `tmp` for one pair is always a Java int |
| HistogramCodec.EncodePair | src/main/java/net/semanticmetadata/lire/imageanalysis/features/global/spatialpyramid/SPACC.java:108-110 | the stored byte of one pair, `(byte)((((int) h << 4) \| (int) l) - 128)`; `PackInRange` gives its value for two nibbles and `UnpackPack` / `PackUnpack` its inverse |
| HistogramCodec.PackPairs | src/main/java/net/semanticmetadata/lire/imageanalysis/features/global/spatialpyramid/SPACC.java:107-111 | the loop over pairs: `n` entries give `n/2` bytes, and `PackPairsAt` proves byte `i` comes from entries `2i` and `2i+1` |
| HistogramCodec.HighNibble | src/main/java/net/semanticmetadata/lire/imageanalysis/features/global/spatialpyramid/SPACC.java:127-129 | the entry decoded from the high half of a byte lies in [0, 15] |
| HistogramCodec.LowNibble | src/main/java/net/semanticmetadata/lire/imageanalysis/features/global/spatialpyramid/SPACC.java:127-128 | the entry decoded from the low half of a byte lies in [0, 15] |
| HistogramCodec.PackInRange | src/main/java/net/semanticmetadata/lire/imageanalysis/features/global/spatialpyramid/SPACC.java:107-111 | for two nibbles the stored byte is `16 * high + low - 128`, with no bits lost |
| HistogramCodec.UnpackPack | src/main/java/net/semanticmetadata/lire/imageanalysis/features/global/spatialpyramid/SPACC.java:108-129 | decoding a byte encoded from two nibbles gives back both nibbles |
| HistogramCodec.PackUnpack | src/main/java/net/semanticmetadata/lire/imageanalysis/features/global/spatialpyramid/SPACC.java:108-129 | encoding the two nibbles decoded from any byte gives back that byte |
| HistogramCodec.Encode | src/main/java/net/semanticmetadata/lire/imageanalysis/features/global/spatialpyramid/SPACC.java:105-111 | a histogram of length n encodes to n/2 bytes |
| HistogramCodec.Decode | src/main/java/net/semanticmetadata/lire/imageanalysis/features/global/spatialpyramid/SPACC.java:125-131 | n bytes decode to 2n entries, each in [0, 15], for any input bytes |
| HistogramCodec.PackPairsAt | src/main/java/net/semanticmetadata/lire/imageanalysis/features/global/spatialpyramid/SPACC.java:107-111 | byte `i` of a pairwise packing comes from entries `2i` and `2i+1` |
| HistogramCodec.EncodeAt | src/main/java/net/semanticmetadata/lire/imageanalysis/features/global/spatialpyramid/SPACC.java:107-111 | byte `i` of the encoding is the pair at entries `2i` and `2i+1` |
| HistogramCodec.EncodeFromPacked | src/main/java/net/semanticmetadata/lire/imageanalysis/features/global/spatialpyramid/SPACC.java:108-110 | the value one loop step computes in `tmp` is the packed pair, and the byte it stores is byte `i` of the encoding |
| HistogramCodec.EncodeNibbles | src/main/java/net/semanticmetadata/lire/imageanalysis/features/global/spatialpyramid/SPACC.java:107-111 | for nibble entries, encoded byte `i` is `((h[2i] << 4) \| h[2i+1]) - 128` |
| HistogramCodec.DecodeSnoc | src/main/java/net/semanticmetadata/lire/imageanalysis/features/global/spatialpyramid/SPACC.java:126-130 | decoding one more byte appends its two nibbles |
| HistogramCodec.DecodeAt | src/main/java/net/semanticmetadata/lire/imageanalysis/features/global/spatialpyramid/SPACC.java:126-130 | entry `2k` is `(b + 128) >> 4` and entry `2k+1` is `(b + 128) & 0xF`, for byte `b` at position `k` |
| HistogramCodec.DecodedEntry | src/main/java/net/semanticmetadata/lire/imageanalysis/features/global/spatialpyramid/SPACC.java:128-129 | the entry the decoder writes at index `j` lies in [0, 15] |
| HistogramCodec.DecodeEntry | src/main/java/net/semanticmetadata/lire/imageanalysis/features/global/spatialpyramid/SPACC.java:126-130 | the decoding, entry by entry, is what the loop writes at that index |
| HistogramCodec.DecodedPrefix | src/main/java/net/semanticmetadata/lire/imageanalysis/features/global/spatialpyramid/SPACC.java:125-131 | entries written index by index make up the decoding of the bytes |
| HistogramCodec.SameTail | src/main/java/net/semanticmetadata/lire/imageanalysis/features/global/spatialpyramid/SPACC.java:125-131 | entries the decoder does not write keep their old values |
| HistogramCodec.DecodedInto | src/main/java/net/semanticmetadata/lire/imageanalysis/features/global/spatialpyramid/SPACC.java:125-131 | the histogram after decoding is the decoded prefix followed by the untouched old tail |
| HistogramCodec.DecodePackPairs | src/main/java/net/semanticmetadata/lire/imageanalysis/features/global/spatialpyramid/SPACC.java:105-131 | decoding undoes any pairwise packing whose bytes the decoder inverts on nibbles |
| HistogramCodec.PackPairsDecode | src/main/java/net/semanticmetadata/lire/imageanalysis/features/global/spatialpyramid/SPACC.java:105-131 | a pairwise packing that rebuilds each byte from its nibbles reproduces any decoded byte sequence |
| HistogramCodec.DecodeEncode | src/main/java/net/semanticmetadata/lire/imageanalysis/features/global/spatialpyramid/SPACC.java:105-131 | round trip: a histogram of nibbles is restored exactly by decoding its encoding |
| HistogramCodec.EncodeDecode | src/main/java/net/semanticmetadata/lire/imageanalysis/features/global/spatialpyramid/SPACC.java:105-131 | round trip: every byte sequence is reproduced by encoding its decoding |
| HistogramCodec.EncodeExample | src/main/java/net/semanticmetadata/lire/imageanalysis/features/global/spatialpyramid/SPACC.java:105-131 | `[15, 0, 0, 15]` is stored as `[112, -113]` and read back unchanged |
| PyramidLayout.Overwrite | src/main/java/net/semanticmetadata/lire/imageanalysis/features/global/spatialpyramid/SPACC.java:73 | `System.arraycopy` of one block keeps the histogram length |
| PyramidLayout.CopyBlocks | src/main/java/net/semanticmetadata/lire/imageanalysis/features/global/spatialpyramid/SPACC.java:89-95 | consecutive block copies keep the histogram length |
| PyramidLayout.Blocks | src/main/java/net/semanticmetadata/lire/imageanalysis/features/global/spatialpyramid/SPACC.java:73-95 | the head blocks of n region vectors take 256n entries |
| PyramidLayout.BlocksAt | src/main/java/net/semanticmetadata/lire/imageanalysis/features/global/spatialpyramid/SPACC.java:73-95 | block `b` of the concatenation is the head of region vector `b` |
| PyramidLayout.CopyBlocksLayout | src/main/java/net/semanticmetadata/lire/imageanalysis/features/global/spatialpyramid/SPACC.java:73-95 | consecutive copies from block `first` fill exactly their blocks and leave the entries before and after alone |
| PyramidLayout.BlocksAppend | src/main/java/net/semanticmetadata/lire/imageanalysis/features/global/spatialpyramid/SPACC.java:73-95 | the blocks of two lists of regions are the blocks of each, one after the other |
| PyramidLayout.ExtractAsWritten | src/main/java/net/semanticmetadata/lire/imageanalysis/features/global/spatialpyramid/SPACC.java:69-97 | the histogram after `extract` as written keeps its 5376 entries |
| PyramidLayout.ExtractCorrected | src/main/java/net/semanticmetadata/lire/imageanalysis/features/global/spatialpyramid/SPACC.java:69-97 | the histogram after `extract` with the grid counter starting at 5 keeps its 5376 entries |
| PyramidLayout.ExtractKeepsOnlyLevel2 | src/main/java/net/semanticmetadata/lire/imageanalysis/features/global/spatialpyramid/SPACC.java:85-95 | as written, blocks 0..15 hold the sixteen grid cells in column-major order, and entries 4096..5375 keep their old values |
| PyramidLayout.ExtractIgnoresCoarseLevels | src/main/java/net/semanticmetadata/lire/imageanalysis/features/global/spatialpyramid/SPACC.java:70-95 | as written, the result does not depend on the whole-image or quadrant correlograms |
| PyramidLayout.ExtractCorrectedLayout | src/main/java/net/semanticmetadata/lire/imageanalysis/features/global/spatialpyramid/SPACC.java:69-97 | with the counter starting at 5, the histogram is the 21 region blocks in pyramid order |
| SpatialPyramid.Spacc.constructor | src/main/java/net/semanticmetadata/lire/imageanalysis/features/global/spatialpyramid/SPACC.java:60-63 | a new feature has a zero histogram of 256 * 5 + 256 * 4 * 4 = 5376 entries |
| SpatialPyramid.Spacc.GetByteArrayRepresentation | src/main/java/net/semanticmetadata/lire/imageanalysis/features/global/spatialpyramid/SPACC.java:105-113 | returns a fresh array of 2688 bytes equal to `Encode` of the histogram. The histogram is unchanged, and `tmp` holds the packed last pair |
| SpatialPyramid.Spacc.SetByteArrayRepresentationRange | src/main/java/net/semanticmetadata/lire/imageanalysis/features/global/spatialpyramid/SPACC.java:125-131 | for a positive `length`, the histogram becomes `Decode(in[offset..offset+length])` followed by its old entries from `2 * length` on, and `tmp` is the last byte plus 128. For `length <= 0`, nothing changes. `in` is never written |
| SpatialPyramid.Spacc.SetByteArrayRepresentation | src/main/java/net/semanticmetadata/lire/imageanalysis/features/global/spatialpyramid/SPACC.java:121-123 | the same as the ranged form with `offset = 0` and `length = in.length` |
| SpatialPyramid.HistogramRoundTrip | src/main/java/net/semanticmetadata/lire/imageanalysis/features/global/spatialpyramid/SPACC.java:105-131 | reading back the 2688 stored bytes into any feature restores a histogram of nibbles |
| SpatialPyramid.BytesRoundTrip | src/main/java/net/semanticmetadata/lire/imageanalysis/features/global/spatialpyramid/SPACC.java:105-131 | storing the histogram read from any 2688 bytes reproduces those bytes |
| SpatialPyramid.Spacc.GetDistance | src/main/java/net/semanticmetadata/lire/imageanalysis/features/global/spatialpyramid/SPACC.java:138-142 | `-1` when the other feature is not a SPACC, the Tanimoto distance of the two vectors otherwise |
| SpatialPyramid.SentinelOnlyOnMismatch | src/main/java/net/semanticmetadata/lire/imageanalysis/features/global/spatialpyramid/SPACC.java:140 | when Tanimoto is never negative, the result is `-1` exactly for features of another kind |
| SpatialPyramid.Spacc.ArrayCopy | src/main/java/net/semanticmetadata/lire/imageanalysis/features/global/spatialpyramid/SPACC.java:73 | `System.arraycopy(src, 0, histogram, destPos, 256)` writes that one block and nothing else |
| SpatialPyramid.Spacc.CopyCoarseLevels | src/main/java/net/semanticmetadata/lire/imageanalysis/features/global/spatialpyramid/SPACC.java:70-84 | whole image into block 0 and the quadrants into blocks 1..4 |
| SpatialPyramid.Spacc.CopyGrid | src/main/java/net/semanticmetadata/lire/imageanalysis/features/global/spatialpyramid/SPACC.java:85-95 | the nested loops copy grid cell `(i, j)` into block `binPos + 4i + j` |
| SpatialPyramid.Spacc.Extract | src/main/java/net/semanticmetadata/lire/imageanalysis/features/global/spatialpyramid/SPACC.java:69-97 | the histogram after the copies as written, with `binPos` starting at 0 |
| SpatialPyramid.Spacc.ExtractPyramid | src/main/java/net/semanticmetadata/lire/imageanalysis/features/global/spatialpyramid/SPACC.java:69-97 | the histogram after the copies with `binPos` starting at 5 |

## Left out

- `ORBFeature` is not part of this model. It drives native OpenCV code, and its serialization and distance are stubs.
- The Tanimoto distance (`MetricsUtils.tanimoto`) is floating-point code that is not part of this model. `GetDistance` takes it as a function parameter.
- Histogram entries are `double`s in Java. The model stores their integral value, so NaN and non-integral entries, which `(int)` truncates, are not modelled.
- SpatialPyramid.Spacc.SetByteArrayRepresentationRange: requires its reads and writes to stay in bounds. Out of bounds, Java throws `ArrayIndexOutOfBoundsException` after the entries already written. It also assumes `offset + length` does not overflow `int`.
- SpatialPyramid.Spacc.SetByteArrayRepresentation: requires the array to fit the histogram (at most 2688 bytes); a longer array throws in Java.
- The image side of `extract` is not part of this model: the `AutoColorCorrelogram` extraction, `BufferedImage.getSubimage` and the image dimensions. `Extract` takes the 21 region correlograms as inputs.
- SpatialPyramid.Spacc.Extract: requires each correlogram vector to have at least 256 entries; a shorter one throws in `System.arraycopy`.
- `getFeatureVector`, `getFeatureName` and `getFieldName` are plain accessors with nothing to state.
- The encoder does not check that entries are in [0, 15]. It is modelled for every integer entry: out-of-range entries corrupt neighbouring bits as Java's `<<`, `|` and `(byte)` do. Only the round trip `DecodeEncode` requires the range.
- The decoder does not check lengths. Out of bounds it throws `ArrayIndexOutOfBoundsException`, which the model excludes by its requires (see above). It writes in place, so entries from `2 * length` on keep their old values.

## Findings

| source | as written | input that shows it | evidently intended | confidence | as-written member | corrected member |
|---|---|---|---|---|---|---|
| src/main/java/net/semanticmetadata/lire/imageanalysis/features/global/spatialpyramid/SPACC.java:88 | `int binPos = 0;` starts the level-2 copies at block 0 | any image: the sixteen grid blocks overwrite blocks 0..15, the whole-image and quadrant blocks are lost, and entries 4096..5375 keep whatever they held before `extract` | `binPos` starts at 5, the first block after the five level-0 and level-1 blocks (the comment calls it "the next free section") | high, not executed | SpatialPyramid.Spacc.Extract with PyramidLayout.ExtractKeepsOnlyLevel2 and PyramidLayout.ExtractIgnoresCoarseLevels | SpatialPyramid.Spacc.ExtractPyramid with PyramidLayout.ExtractCorrectedLayout |
