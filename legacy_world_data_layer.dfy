/**
 * `UWorldDataLayer` (UWorldDataLayer.cpp), the earlier revision of the layer:
 * the same byte buffer and pixel codec, but no spatial index, a fixed
 * 1024 x 1024 raster for layers sized relative to the world, and only the
 * flat byte offset checked on reads as well as on writes.  An invalid offset
 * reads as opaque black.
 */
module LegacyWorldDataLayer {
  import opened Quadtree
  import opened WorldDataLayerAsset
  import opened PixelCodec
  import Current = WorldDataLayer

  /** The raster of `Initialize`: the asset's own for absolute layers, a fixed 1024 x 1024 otherwise. */
  function LegacyResolution(config: LayerAsset): Point
  {
    if config.resolutionMode == Absolute then config.resolution else Point(1024, 1024)
  }

  /** `GetValueAtPixel`: opaque black when the first byte's offset is invalid, the decoded pixel otherwise. */
  function LegacyRead(f: DataFormat, h: HalfCodec, res: Point, data: seq<Byte>, p: Point): (c: LinearColor)
    requires WellSized(res, f, data)
  {
    if ValidOffset(res, f, data, p) then DecodeAt(f, h, res, data, p) else Black
  }

  /** A pixel just written reads back as the decoded encoding of the new value. */
  lemma LegacyReadAfterWrite(f: DataFormat, h: HalfCodec, res: Point, data: seq<Byte>, p: Point, v: LinearColor)
    requires WellSized(res, f, data) && ValidOffset(res, f, data, p)
    ensures LegacyRead(f, h, res, WriteAt(f, h, res, data, p, v), p) == DecodePixel(f, h, EncodePixel(f, h, v))
    ensures StorableWithoutWrap(f, v) ==> LegacyRead(f, h, res, WriteAt(f, h, res, data, p, v), p) == ReadBack(f, h, v)
  {
    ReadAfterWrite(f, h, res, data, p, v);
    if StorableWithoutWrap(f, v) {
      PixelRoundTrip(f, h, v);
    }
  }

  /**
   * A write changes what no other offset reads: every pixel whose first byte
   * differs from the written one reads as before, and an invalid offset
   * writes nothing at all.
   */
  lemma LegacyWriteIsLocal(f: DataFormat, h: HalfCodec, res: Point, data: seq<Byte>, p: Point, q: Point, v: LinearColor)
    requires WellSized(res, f, data)
    requires PixelIndex(p, res.x, f) != PixelIndex(q, res.x, f) || !ValidOffset(res, f, data, p)
    ensures LegacyRead(f, h, res, WriteAt(f, h, res, data, p, v), q) == LegacyRead(f, h, res, data, q)
  {
    if ValidOffset(res, f, data, q) && ValidOffset(res, f, data, p) {
      WriteIsLocal(f, h, res, data, p, q, v);
    }
  }

  /**
   * Without a check per axis, the column one past the right edge of row `y`
   * reads the first pixel of row `y + 1`.
   */
  lemma LegacyReadWrapsToNextRow(f: DataFormat, h: HalfCodec, res: Point, data: seq<Byte>, y: int)
    requires WellSized(res, f, data)
    ensures LegacyRead(f, h, res, data, Point(res.x, y)) == LegacyRead(f, h, res, data, Point(0, y + 1))
  {
    ColumnPastRowEndIsNextRow(res, f, y);
  }

  /**
   * In a buffer filled with one colour, every pixel with a valid offset reads
   * that colour, whatever its axes, and every other pixel reads black.
   */
  lemma LegacyFilledBufferReads(f: DataFormat, h: HalfCodec, res: Point, c: LinearColor, p: Point)
    requires res.x >= 0 && res.y >= 0
    ensures var data := Repeat(EncodePixel(f, h, c), res.x * res.y);
            && WellSized(res, f, data)
            && LegacyRead(f, h, res, data, p)
               == if ValidOffset(res, f, data, p) then DecodePixel(f, h, EncodePixel(f, h, c)) else Black
  {
    var px := EncodePixel(f, h, c);
    MultiplyIsMonotonic(0, res.x, res.y);
    var n := res.x * res.y;
    var data := Repeat(px, n);
    RepeatLength(px, n);
    if ValidOffset(res, f, data, p) {
      var k := Rank(res, p);
      ValidOffsetHoldsWholePixel(k, n, |px|);
      RepeatedPixel(px, n, k);
    }
  }

  /**
   * Where the two revisions of `GetValueAtPixel` part ways on the same
   * buffer: one column past the right edge the current layer reports its
   * default while this one reads the first pixel of the next row, and left of
   * the raster the current layer reports its default while this one reports
   * black.
   */
  lemma RevisionsDisagreeOffRaster(config: LayerAsset, h: HalfCodec, res: Point, data: seq<Byte>, y: int)
    requires WellSized(res, config.dataFormat, data) && 0 <= y && y + 1 < res.y && res.x > 0
    ensures var f := config.dataFormat;
            && Current.ReadPixel(config, h, res, data, Point(res.x, y)) == config.defaultValue
            && ValidOffset(res, f, data, Point(0, y + 1))
            && LegacyRead(f, h, res, data, Point(res.x, y)) == DecodeAt(f, h, res, data, Point(0, y + 1))
    ensures Current.ReadPixel(config, h, res, data, Point(-1, 0)) == config.defaultValue
    ensures LegacyRead(config.dataFormat, h, res, data, Point(-1, 0)) == Black
  {
    InBoundsHasValidOffset(res, config.dataFormat, data, Point(0, y + 1));
    LegacyReadWrapsToNextRow(config.dataFormat, h, res, data, y);
  }

  /** `UWorldDataLayer`: the configuration, the raster, the byte buffer and the dirty flag. */
  class WorldDataLayer {
    const config: LayerAsset
    const half: HalfCodec
    const resolution: Point
    var rawData: seq<Byte>
    var isDirty: bool

    /** The buffer holds exactly one pixel per raster cell. */
    ghost predicate Valid()
      reads this
    {
      WellSized(resolution, config.dataFormat, rawData)
    }

    /**
     * `Initialize`: size the buffer for the raster, write the default value
     * into every pixel row by row, then clear the dirty flag.
     */
    constructor Initialize(inConfig: LayerAsset, inHalf: HalfCodec)
      requires inConfig.resolutionMode == Absolute ==> inConfig.resolution.x >= 0 && inConfig.resolution.y >= 0
      ensures Valid()
      ensures config == inConfig && half == inHalf
      ensures resolution == if inConfig.resolutionMode == Absolute then inConfig.resolution else Point(1024, 1024)
      ensures rawData == Repeat(EncodePixel(config.dataFormat, half, config.defaultValue), resolution.x * resolution.y)
      ensures !isDirty
    {
      config, half := inConfig, inHalf;
      var res := LegacyResolution(inConfig);
      resolution := res;
      MultiplyIsMonotonic(0, res.x, res.y);
      MultiplyIsMonotonic(0, res.x * res.y, BytesPerPixel(inConfig.dataFormat));
      rawData := Zeroes(res.x * res.y * BytesPerPixel(inConfig.dataFormat));
      isDirty := false;
      new;
      EmptyFillIsZeroes(EncodePixel(config.dataFormat, half, config.defaultValue), res.x * res.y);
      FillWithDefault();
      isDirty := false;
    }

    /** The first `k` pixels, in row-major order, hold the default value and the rest are still zero. */
    ghost predicate FilledUpTo(k: int)
      reads this
    {
      && 0 <= k <= resolution.x * resolution.y
      && rawData == FilledPrefix(EncodePixel(config.dataFormat, half, config.defaultValue), k, resolution.x * resolution.y)
    }

    /** The fill loop of `Initialize`. */
    method FillWithDefault()
      requires Valid() && FilledUpTo(0)
      modifies this`rawData, this`isDirty
      ensures Valid()
      ensures rawData == Repeat(EncodePixel(config.dataFormat, half, config.defaultValue), resolution.x * resolution.y)
    {
      var y := 0;
      ghost var k := 0;
      while y < resolution.y
        invariant 0 <= y <= resolution.y && k == y * resolution.x
        invariant Valid() && FilledUpTo(k)
      {
        FillRow(y, k);
        RowStep(resolution.x, y);
        y, k := y + 1, k + resolution.x;
      }
      PixelCountCommutes(resolution);
      FilledBufferIsRepeat(EncodePixel(config.dataFormat, half, config.defaultValue), k);
    }

    /** One row of the fill loop; `start` is the rank of the row's first pixel. */
    method FillRow(y: int, ghost start: int)
      requires Valid() && 0 <= y < resolution.y && start == y * resolution.x && FilledUpTo(start)
      modifies this`rawData, this`isDirty
      ensures Valid() && FilledUpTo(start + resolution.x)
    {
      var x := 0;
      ghost var k := start;
      while x < resolution.x
        invariant 0 <= x <= resolution.x && k == start + x
        invariant Valid() && FilledUpTo(k)
      {
        FillPixelStep(config.dataFormat, half, resolution, config.defaultValue, Point(x, y));
        SetValueAtPixel(Point(x, y), config.defaultValue);
        x, k := x + 1, k + 1;
      }
    }

    /** `GetValueAtPixel`. */
    function GetValueAtPixel(p: Point): (c: LinearColor)
      reads this
      requires Valid()
      ensures !ValidOffset(resolution, config.dataFormat, rawData, p) ==> c == Black
      ensures ValidOffset(resolution, config.dataFormat, rawData, p) ==>
                c == DecodeAt(config.dataFormat, half, resolution, rawData, p)
    {
      LegacyRead(config.dataFormat, half, resolution, rawData, p)
    }

    /**
     * `SetValueAtPixel`: a no-op when the first byte's offset is invalid;
     * otherwise the pixel's bytes get the encoding of the new value and the
     * layer is marked dirty.
     */
    method SetValueAtPixel(p: Point, newValue: LinearColor)
      requires Valid()
      modifies this`rawData, this`isDirty
      ensures Valid()
      ensures rawData == WriteAt(config.dataFormat, half, resolution, old(rawData), p, newValue)
      ensures isDirty == (old(isDirty) || ValidOffset(resolution, config.dataFormat, old(rawData), p))
    {
      var f := config.dataFormat;
      var idx := PixelIndex(p, resolution.x, f);
      if !(0 <= idx < |rawData|) {
        return;
      }
      OffsetHoldsPixel(resolution, f, rawData, p);
      rawData := StorePixel(rawData, idx, f, half, newValue);
      isDirty := true;
    }
  }
}
