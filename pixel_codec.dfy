/**
 * The pixel layout and the per-format encode/decode shared by both
 * revisions of `UWorldDataLayer`: a flat byte buffer, pixel after pixel in
 * row-major order, each pixel `BytesPerPixel` bytes long.
 */
module PixelCodec {
  import opened Quadtree
  import opened WorldDataLayerAsset

  /** `uint8`. */
  type Byte = b: int | 0 <= b < 256

  /** The 16 bits of an `FFloat16`. */
  type Half = h: int | 0 <= h < 0x1_0000

  /**
   * The engine's `FFloat16` conversions, from a float to its 16 bits and
   * back.  Their rounding is engine numerics, so they are a parameter.
   */
  datatype HalfCodec = HalfCodec(fromFloat: real -> Half, toFloat: Half -> real)

  function Channels(f: DataFormat): nat
  {
    if f == R8 || f == R16F then 1 else 4
  }

  function BytesPerChannel(f: DataFormat): nat
  {
    if f == R8 || f == RGBA8 then 1 else 2
  }

  /** `GetBytesPerPixel`. */
  function BytesPerPixel(f: DataFormat): (n: nat)
    ensures n == Channels(f) * BytesPerChannel(f)
    ensures n > 0
  {
    match f
    case R8 => 1
    case R16F => 2
    case RGBA8 => 4
    case RGBA16F => 8
  }

  /** `GetPixelIndex`: the offset of the pixel's first byte. */
  function PixelIndex(p: Point, resX: int, f: DataFormat): int
  {
    (p.y * resX + p.x) * BytesPerPixel(f)
  }

  /** `FMath::RoundToInt`: round half up. */
  function RoundToInt(x: real): (r: int)
    ensures r as real - 0.5 <= x < r as real + 0.5
  {
    (x + 0.5).Floor
  }

  /** Storing an `int32` into a `uint8` keeps its low eight bits. */
  function ToByte(i: int): (b: Byte)
    ensures 0 <= i < 256 ==> b == i
    ensures (i - b) % 256 == 0
  {
    i % 256
  }

  /** How an 8-bit channel is stored. */
  function Encode8(v: real): Byte
  {
    ToByte(RoundToInt(v * 255.0))
  }

  /** How an 8-bit channel is read. */
  function Decode8(b: Byte): (v: real)
    ensures 0.0 <= v <= 1.0
  {
    b as real / 255.0
  }

  /** An `FFloat16` as stored in memory: low byte first. */
  function EncodeHalf(h: HalfCodec, v: real): (bytes: seq<Byte>)
    ensures |bytes| == 2
  {
    var bits := h.fromFloat(v);
    [bits % 256, bits / 256]
  }

  function DecodeHalf(h: HalfCodec, lo: Byte, hi: Byte): real
  {
    h.toFloat(lo + 256 * hi)
  }

  /** The bytes `SetValueAtPixel` writes for a colour. */
  function EncodePixel(f: DataFormat, h: HalfCodec, c: LinearColor): (bytes: seq<Byte>)
    ensures |bytes| == BytesPerPixel(f)
  {
    match f
    case R8 => [Encode8(c.r)]
    case R16F => EncodeHalf(h, c.r)
    case RGBA8 => [Encode8(c.r), Encode8(c.g), Encode8(c.b), Encode8(c.a)]
    case RGBA16F => EncodeHalf(h, c.r) + EncodeHalf(h, c.g) + EncodeHalf(h, c.b) + EncodeHalf(h, c.a)
  }

  /** The colour `GetValueAtPixel` decodes from a pixel's bytes; one channel leaves G, B and A at zero. */
  function DecodePixel(f: DataFormat, h: HalfCodec, px: seq<Byte>): LinearColor
    requires |px| == BytesPerPixel(f)
  {
    match f
    case R8 => LinearColor(Decode8(px[0]), 0.0, 0.0, 0.0)
    case R16F => LinearColor(DecodeHalf(h, px[0], px[1]), 0.0, 0.0, 0.0)
    case RGBA8 => LinearColor(Decode8(px[0]), Decode8(px[1]), Decode8(px[2]), Decode8(px[3]))
    case RGBA16F => LinearColor(DecodeHalf(h, px[0], px[1]), DecodeHalf(h, px[2], px[3]),
                                DecodeHalf(h, px[4], px[5]), DecodeHalf(h, px[6], px[7]))
  }

  /** An 8-bit channel in [0, 1] reads back as the nearest multiple of 1/255. */
  function Quantize8(v: real): real
  {
    RoundToInt(v * 255.0) as real / 255.0
  }

  /** A half channel reads back as the float its 16 bits stand for. */
  function QuantizeHalf(h: HalfCodec, v: real): real
  {
    h.toFloat(h.fromFloat(v))
  }

  /**
   * What a write followed by a read yields, channel by channel, for colours
   * whose 8-bit channels lie in [0, 1].
   */
  function ReadBack(f: DataFormat, h: HalfCodec, c: LinearColor): LinearColor
  {
    match f
    case R8 => LinearColor(Quantize8(c.r), 0.0, 0.0, 0.0)
    case R16F => LinearColor(QuantizeHalf(h, c.r), 0.0, 0.0, 0.0)
    case RGBA8 => LinearColor(Quantize8(c.r), Quantize8(c.g), Quantize8(c.b), Quantize8(c.a))
    case RGBA16F => LinearColor(QuantizeHalf(h, c.r), QuantizeHalf(h, c.g), QuantizeHalf(h, c.b), QuantizeHalf(h, c.a))
  }

  predicate InUnitRange(v: real)
  {
    0.0 <= v <= 1.0
  }

  /** The 8-bit channels of `c` that format `f` stores lie in [0, 1]. */
  predicate StorableWithoutWrap(f: DataFormat, c: LinearColor)
  {
    match f
    case R8 => InUnitRange(c.r)
    case RGBA8 => InUnitRange(c.r) && InUnitRange(c.g) && InUnitRange(c.b) && InUnitRange(c.a)
    case _ => true
  }

  /** A channel in [0, 1] survives the byte store unwrapped and reads back within 1/510. */
  lemma Channel8RoundTrip(v: real)
    requires InUnitRange(v)
    ensures Decode8(Encode8(v)) == Quantize8(v)
    ensures Abs(Decode8(Encode8(v)) - v) <= 1.0 / 510.0
  {
    var r := RoundToInt(v * 255.0);
    assert 0 <= r <= 255;
    assert Abs(r as real - v * 255.0) <= 0.5;
  }

  /** Re-storing a stored byte gives the same byte back. */
  lemma Byte8IsStable(b: Byte)
    ensures Encode8(Decode8(b)) == b
  {
    assert Decode8(b) * 255.0 == b as real;
  }

  /** The byte store has no clamp: a slightly negative channel wraps round to full intensity. */
  lemma NegativeChannelWrapsToOne()
    ensures Encode8(-1.0 / 255.0) == 255
    ensures Decode8(Encode8(-1.0 / 255.0)) == 1.0
  {
    assert RoundToInt(-1.0 / 255.0 * 255.0) == -1;
  }

  /** A channel above one wraps too: 2.0 is stored as 254. */
  lemma LargeChannelWraps()
    ensures Encode8(2.0) == 254
  {
    assert RoundToInt(2.0 * 255.0) == 510;
  }

  /** A half channel reads back as the engine's own float-to-half-to-float conversion. */
  lemma HalfRoundTrip(h: HalfCodec, v: real)
    ensures var bytes := EncodeHalf(h, v); DecodeHalf(h, bytes[0], bytes[1]) == QuantizeHalf(h, v)
  {
  }

  /**
   * Decoding what was encoded gives the per-channel read-back; single-channel
   * formats drop G, B and A.
   */
  lemma PixelRoundTrip(f: DataFormat, h: HalfCodec, c: LinearColor)
    requires StorableWithoutWrap(f, c)
    ensures DecodePixel(f, h, EncodePixel(f, h, c)) == ReadBack(f, h, c)
  {
    match f
    case R8 =>
      Channel8RoundTrip(c.r);
    case RGBA8 =>
      Channel8RoundTrip(c.r);
      Channel8RoundTrip(c.g);
      Channel8RoundTrip(c.b);
      Channel8RoundTrip(c.a);
    case R16F =>
    case RGBA16F =>
  }

  /** Overwriting `|bytes|` bytes at `idx`: the pixel store. */
  function Splice(data: seq<Byte>, idx: int, bytes: seq<Byte>): (r: seq<Byte>)
    requires 0 <= idx && idx + |bytes| <= |data|
    ensures |r| == |data|
    ensures r[idx..idx + |bytes|] == bytes
    ensures forall k | 0 <= k < |data| && !(idx <= k < idx + |bytes|) :: r[k] == data[k]
  {
    data[..idx] + bytes + data[idx + |bytes|..]
  }

  /** A splice leaves every byte range it does not overlap as it was. */
  lemma SpliceLeavesOthers(data: seq<Byte>, idx: int, bytes: seq<Byte>, j: int, m: nat)
    requires 0 <= idx && idx + |bytes| <= |data| && 0 <= j && j + m <= |data|
    requires j + m <= idx || idx + |bytes| <= j
    ensures Splice(data, idx, bytes)[j..j + m] == data[j..j + m]
  {
  }

  /** The per-format byte stores of `SetValueAtPixel`, one byte at a time. */
  method StorePixel(data: seq<Byte>, idx: int, f: DataFormat, h: HalfCodec, v: LinearColor) returns (r: seq<Byte>)
    requires 0 <= idx && idx + BytesPerPixel(f) <= |data|
    ensures r == Splice(data, idx, EncodePixel(f, h, v))
  {
    r := data;
    match f {
      case R8 =>
        r := r[idx := Encode8(v.r)];
      case R16F =>
        var red := EncodeHalf(h, v.r);
        r := r[idx := red[0]][idx + 1 := red[1]];
      case RGBA8 =>
        r := r[idx := Encode8(v.r)];
        r := r[idx + 1 := Encode8(v.g)];
        r := r[idx + 2 := Encode8(v.b)];
        r := r[idx + 3 := Encode8(v.a)];
      case RGBA16F =>
        var red, green, blue, alpha := EncodeHalf(h, v.r), EncodeHalf(h, v.g), EncodeHalf(h, v.b), EncodeHalf(h, v.a);
        r := r[idx := red[0]][idx + 1 := red[1]];
        r := r[idx + 2 := green[0]][idx + 3 := green[1]];
        r := r[idx + 4 := blue[0]][idx + 5 := blue[1]];
        r := r[idx + 6 := alpha[0]][idx + 7 := alpha[1]];
    }
    assert r == Splice(data, idx, EncodePixel(f, h, v));
  }

  /** The bytes of the pixel starting at `idx`. */
  function PixelBytes(data: seq<Byte>, idx: int, f: DataFormat): (px: seq<Byte>)
    requires 0 <= idx && idx + BytesPerPixel(f) <= |data|
    ensures |px| == BytesPerPixel(f)
  {
    data[idx..idx + BytesPerPixel(f)]
  }

  /** Pixel `k` of a buffer of whole pixels lies wholly inside it. */
  lemma PixelFits(k: int, n: int, bpp: nat)
    requires 0 <= k < n && bpp > 0
    ensures 0 <= k * bpp && k * bpp + bpp <= n * bpp
  {
    assert (k + 1) * bpp <= n * bpp by {
      MultiplyIsMonotonic(k + 1, n, bpp);
    }
  }

  lemma MultiplyIsMonotonic(a: int, b: int, c: nat)
    requires a <= b
    ensures a * c <= b * c
  {
    assert b * c - a * c == (b - a) * c;
  }

  /**
   * A valid first byte means a whole pixel: in a buffer of `n` pixels of
   * `bpp` bytes, an offset `k * bpp` that indexes the buffer leaves room for
   * all `bpp` bytes.
   */
  lemma ValidOffsetHoldsWholePixel(k: int, n: int, bpp: nat)
    requires bpp > 0 && 0 <= k * bpp < n * bpp
    ensures 0 <= k < n && k * bpp + bpp <= n * bpp
  {
    if k < 0 {
      MultiplyIsMonotonic(k, -1, bpp);
    }
    if k >= n {
      MultiplyIsMonotonic(n, k, bpp);
    }
    PixelFits(k, n, bpp);
  }

  /** Distinct pixels of the same size occupy disjoint byte ranges. */
  lemma PixelsAreDisjoint(j: int, k: int, bpp: nat)
    requires j != k && bpp > 0
    ensures j * bpp + bpp <= k * bpp || k * bpp + bpp <= j * bpp
  {
    if j < k {
      MultiplyIsMonotonic(j + 1, k, bpp);
    } else {
      MultiplyIsMonotonic(k + 1, j, bpp);
    }
  }

  // ---------------------------------------------------------------------
  // The buffer of a layer with resolution `res`
  // ---------------------------------------------------------------------

  /** `RawData` holds exactly `res.x * res.y` pixels. */
  predicate WellSized(res: Point, f: DataFormat, data: seq<Byte>)
  {
    res.x >= 0 && res.y >= 0 && |data| == res.x * res.y * BytesPerPixel(f)
  }

  /** `RawData.IsValidIndex(GetPixelIndex(p))`: the only bounds check of a write. */
  predicate ValidOffset(res: Point, f: DataFormat, data: seq<Byte>, p: Point)
  {
    0 <= PixelIndex(p, res.x, f) < |data|
  }

  /** Each axis within the resolution. */
  predicate InBounds(res: Point, p: Point)
  {
    0 <= p.x < res.x && 0 <= p.y < res.y
  }

  /** Where the pixel's bytes start, and that they all lie in the buffer. */
  lemma OffsetHoldsPixel(res: Point, f: DataFormat, data: seq<Byte>, p: Point)
    requires WellSized(res, f, data) && ValidOffset(res, f, data, p)
    ensures PixelIndex(p, res.x, f) + BytesPerPixel(f) <= |data|
  {
    ValidOffsetHoldsWholePixel(p.y * res.x + p.x, res.x * res.y, BytesPerPixel(f));
  }

  /** The colour decoded from the bytes at the pixel's offset. */
  function DecodeAt(f: DataFormat, h: HalfCodec, res: Point, data: seq<Byte>, p: Point): LinearColor
    requires WellSized(res, f, data) && ValidOffset(res, f, data, p)
  {
    OffsetHoldsPixel(res, f, data, p);
    DecodePixel(f, h, PixelBytes(data, PixelIndex(p, res.x, f), f))
  }

  /**
   * The buffer after a pixel write: unchanged when the first byte's offset
   * is invalid, otherwise the pixel's bytes replaced by the encoding.
   */
  function WriteAt(f: DataFormat, h: HalfCodec, res: Point, data: seq<Byte>, p: Point, c: LinearColor): (r: seq<Byte>)
    requires WellSized(res, f, data)
    ensures WellSized(res, f, r)
  {
    if !ValidOffset(res, f, data, p) then data
    else
      OffsetHoldsPixel(res, f, data, p);
      Splice(data, PixelIndex(p, res.x, f), EncodePixel(f, h, c))
  }

  lemma RowStep(w: int, y: int)
    ensures (y + 1) * w == y * w + w
  {
  }

  /** In row-major order every pixel of an earlier row comes first. */
  lemma EarlierRowFirst(w: int, y1: int, x1: int, y2: int, x2: int)
    requires 0 <= x1 < w && 0 <= x2 && y1 < y2
    ensures y1 * w + x1 < y2 * w + x2
  {
    MultiplyIsMonotonic(y1 + 1, y2, w);
    RowStep(w, y1);
  }

  /** Every pixel whose axes are in range has a valid offset. */
  lemma InBoundsHasValidOffset(res: Point, f: DataFormat, data: seq<Byte>, p: Point)
    requires WellSized(res, f, data) && InBounds(res, p)
    ensures ValidOffset(res, f, data, p)
  {
    var k := p.y * res.x + p.x;
    EarlierRowFirst(res.x, p.y, p.x, res.y, 0);
    MultiplyIsMonotonic(0, p.y, res.x);
    PixelFits(k, res.y * res.x, BytesPerPixel(f));
  }

  /** Two different pixels whose axes are in range start at different offsets. */
  lemma InBoundsPixelsHaveDistinctOffsets(res: Point, f: DataFormat, p: Point, q: Point)
    requires InBounds(res, p) && InBounds(res, q) && p != q
    ensures PixelIndex(p, res.x, f) != PixelIndex(q, res.x, f)
  {
    var kp, kq := p.y * res.x + p.x, q.y * res.x + q.x;
    if p.y < q.y {
      EarlierRowFirst(res.x, p.y, p.x, q.y, q.x);
    } else if q.y < p.y {
      EarlierRowFirst(res.x, q.y, q.x, p.y, p.x);
    }
    PixelsAreDisjoint(kp, kq, BytesPerPixel(f));
  }

  /** A read at the written pixel returns the decoded encoding of the written colour. */
  lemma ReadAfterWrite(f: DataFormat, h: HalfCodec, res: Point, data: seq<Byte>, p: Point, c: LinearColor)
    requires WellSized(res, f, data) && ValidOffset(res, f, data, p)
    ensures ValidOffset(res, f, WriteAt(f, h, res, data, p, c), p)
    ensures DecodeAt(f, h, res, WriteAt(f, h, res, data, p, c), p) == DecodePixel(f, h, EncodePixel(f, h, c))
  {
    OffsetHoldsPixel(res, f, data, p);
  }

  /** A write leaves every pixel at another offset reading as before. */
  lemma WriteIsLocal(f: DataFormat, h: HalfCodec, res: Point, data: seq<Byte>, p: Point, q: Point, c: LinearColor)
    requires WellSized(res, f, data) && ValidOffset(res, f, data, q)
    requires PixelIndex(p, res.x, f) != PixelIndex(q, res.x, f)
    ensures ValidOffset(res, f, WriteAt(f, h, res, data, p, c), q)
    ensures DecodeAt(f, h, res, WriteAt(f, h, res, data, p, c), q) == DecodeAt(f, h, res, data, q)
  {
    if ValidOffset(res, f, data, p) {
      var bpp := BytesPerPixel(f);
      var ip, iq := PixelIndex(p, res.x, f), PixelIndex(q, res.x, f);
      OffsetHoldsPixel(res, f, data, p);
      OffsetHoldsPixel(res, f, data, q);
      PixelsAreDisjoint(p.y * res.x + p.x, q.y * res.x + q.x, bpp);
      SpliceLeavesOthers(data, ip, EncodePixel(f, h, c), iq, bpp);
    }
  }

  /**
   * The flat offset check lets a column past the right edge through: the
   * pixel one past the end of row `y` is the first pixel of row `y + 1`.
   */
  lemma ColumnPastRowEndIsNextRow(res: Point, f: DataFormat, y: int)
    ensures PixelIndex(Point(res.x, y), res.x, f) == PixelIndex(Point(0, y + 1), res.x, f)
  {
    assert y * res.x + res.x == (y + 1) * res.x;
  }

  // ---------------------------------------------------------------------
  // A buffer filled with one pixel value
  // ---------------------------------------------------------------------

  /** `k` copies of one pixel's bytes. */
  function Repeat(px: seq<Byte>, k: nat): seq<Byte>
  {
    if k == 0 then [] else Repeat(px, k - 1) + px
  }

  lemma {:induction false} RepeatLength(px: seq<Byte>, k: nat)
    ensures |Repeat(px, k)| == k * |px|
  {
    if k > 0 {
      RepeatLength(px, k - 1);
      assert k * |px| == (k - 1) * |px| + |px|;
    }
  }

  /** The first copy can be split off as well as the last. */
  lemma {:induction false} RepeatFirst(px: seq<Byte>, k: nat)
    requires k > 0
    ensures Repeat(px, k) == px + Repeat(px, k - 1)
  {
    if k > 1 {
      RepeatFirst(px, k - 1);
    }
  }

  function Zeroes(n: nat): (r: seq<Byte>)
    ensures |r| == n && forall i | 0 <= i < n :: r[i] == 0
  {
    seq(n, i => 0)
  }

  /** `n` zeroed pixels are as many zero bytes. */
  lemma {:induction false} RepeatedZeroes(bpp: nat, n: nat)
    ensures n * bpp >= 0 && Repeat(Zeroes(bpp), n) == Zeroes(n * bpp)
  {
    MultiplyIsMonotonic(0, n, bpp);
    RepeatLength(Zeroes(bpp), n);
    if n > 0 {
      RepeatedZeroes(bpp, n - 1);
      MultiplyIsMonotonic(0, n - 1, bpp);
      assert n * bpp == (n - 1) * bpp + bpp;
    }
  }

  /**
   * The first `k` of `n` pixels written with `px`; the other `n - k` still
   * hold zero bytes.
   */
  function FilledPrefix(px: seq<Byte>, k: nat, n: nat): seq<Byte>
    requires k <= n
  {
    Repeat(px, k) + Repeat(Zeroes(|px|), n - k)
  }

  lemma FilledPrefixLength(px: seq<Byte>, k: nat, n: nat)
    requires k <= n
    ensures |FilledPrefix(px, k, n)| == n * |px|
  {
    RepeatLength(px, k);
    RepeatLength(Zeroes(|px|), n - k);
    assert n * |px| == k * |px| + (n - k) * |px|;
  }

  /** Writing pixel `k` of a buffer filled up to `k` fills it up to `k + 1`. */
  lemma FillStep(px: seq<Byte>, k: nat, n: nat)
    requires k < n
    ensures |FilledPrefix(px, k, n)| == n * |px|
    ensures 0 <= k * |px| && k * |px| + |px| <= n * |px|
    ensures Splice(FilledPrefix(px, k, n), k * |px|, px) == FilledPrefix(px, k + 1, n)
  {
    FilledPrefixLength(px, k, n);
    MultiplyIsMonotonic(0, k, |px|);
    MultiplyIsMonotonic(k + 1, n, |px|);
    var a, z, b := Repeat(px, k), Zeroes(|px|), Repeat(Zeroes(|px|), n - k - 1);
    RepeatLength(px, k);
    RepeatFirst(z, n - k);
    assert FilledPrefix(px, k, n) == a + z + b;
    assert (a + z + b)[..|a|] == a;
    assert (a + z + b)[|a| + |px|..] == b;
    assert FilledPrefix(px, k + 1, n) == a + px + b;
  }

  /** A completely filled buffer is the pixel repeated. */
  lemma FilledBufferIsRepeat(px: seq<Byte>, n: nat)
    ensures FilledPrefix(px, n, n) == Repeat(px, n)
  {
    assert Repeat(Zeroes(|px|), 0) == [];
  }

  /** A buffer with nothing filled yet is all zeroes. */
  lemma EmptyFillIsZeroes(px: seq<Byte>, n: nat)
    ensures n * |px| >= 0 && FilledPrefix(px, 0, n) == Zeroes(n * |px|)
  {
    RepeatedZeroes(|px|, n);
    assert Repeat(px, 0) == [];
  }

  /** Every pixel of a repeated buffer holds the repeated bytes. */
  lemma {:induction false} RepeatedPixel(px: seq<Byte>, k: nat, j: nat)
    requires j < k
    ensures |Repeat(px, k)| == k * |px|
    ensures j * |px| + |px| <= k * |px|
    ensures Repeat(px, k)[j * |px|..j * |px| + |px|] == px
  {
    RepeatLength(px, k);
    RepeatLength(px, k - 1);
    MultiplyIsMonotonic(j + 1, k, |px|);
    if j < k - 1 {
      RepeatedPixel(px, k - 1, j);
      MultiplyIsMonotonic(j + 1, k - 1, |px|);
      assert Repeat(px, k) == Repeat(px, k - 1) + px;
    } else {
      assert j * |px| == |Repeat(px, k - 1)|;
    }
  }

  /** In a buffer filled with one encoded colour, every in-range pixel decodes to it. */
  lemma FilledBufferReads(f: DataFormat, h: HalfCodec, res: Point, c: LinearColor, p: Point)
    requires res.x >= 0 && res.y >= 0 && InBounds(res, p)
    ensures WellSized(res, f, Repeat(EncodePixel(f, h, c), res.x * res.y))
    ensures ValidOffset(res, f, Repeat(EncodePixel(f, h, c), res.x * res.y), p)
    ensures DecodeAt(f, h, res, Repeat(EncodePixel(f, h, c), res.x * res.y), p) == DecodePixel(f, h, EncodePixel(f, h, c))
  {
    var px := EncodePixel(f, h, c);
    var data := Repeat(px, res.x * res.y);
    RepeatLength(px, res.x * res.y);
    InBoundsHasValidOffset(res, f, data, p);
    var k := p.y * res.x + p.x;
    assert 0 <= k < res.x * res.y by {
      ValidOffsetHoldsWholePixel(k, res.x * res.y, |px|);
    }
    RepeatedPixel(px, res.x * res.y, k);
  }

  // ---------------------------------------------------------------------
  // Row-major order and the default fill
  // ---------------------------------------------------------------------

  /** The row-major position of a pixel: the order `Initialize` visits pixels in. */
  function Rank(res: Point, q: Point): int
  {
    q.y * res.x + q.x
  }

  /** In-range pixels have distinct ranks, all in `[0, res.x * res.y)`. */
  lemma RankIsInjective(res: Point, p: Point, q: Point)
    requires InBounds(res, p) && InBounds(res, q)
    ensures 0 <= Rank(res, p) < res.x * res.y
    ensures p != q ==> Rank(res, p) != Rank(res, q)
  {
    MultiplyIsMonotonic(0, p.y, res.x);
    EarlierRowFirst(res.x, p.y, p.x, res.y, 0);
    if p != q {
      InBoundsPixelsHaveDistinctOffsets(res, R8, p, q);
    }
  }

  lemma PixelCountCommutes(res: Point)
    ensures res.y * res.x == res.x * res.y
  {
  }

  /** Writing pixel `p` of a buffer filled up to `p`'s rank fills it one pixel further. */
  lemma FillPixelStep(f: DataFormat, h: HalfCodec, res: Point, c: LinearColor, p: Point)
    requires InBounds(res, p)
    ensures 0 <= Rank(res, p) < res.x * res.y
    ensures WellSized(res, f, FilledPrefix(EncodePixel(f, h, c), Rank(res, p), res.x * res.y))
    ensures ValidOffset(res, f, FilledPrefix(EncodePixel(f, h, c), Rank(res, p), res.x * res.y), p)
    ensures WriteAt(f, h, res, FilledPrefix(EncodePixel(f, h, c), Rank(res, p), res.x * res.y), p, c)
            == FilledPrefix(EncodePixel(f, h, c), Rank(res, p) + 1, res.x * res.y)
  {
    var px, n, k := EncodePixel(f, h, c), res.x * res.y, Rank(res, p);
    RankIsInjective(res, p, p);
    FillStep(px, k, n);
    var data := FilledPrefix(px, k, n);
    assert PixelIndex(p, res.x, f) == k * |px|;
    assert 0 <= k * |px| < |data|;
  }
}
