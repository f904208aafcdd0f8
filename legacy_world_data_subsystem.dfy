/**
 * `UMyWorldDataSubsystem` (UMyWorldDataSubsystem.cpp), the earlier revision
 * of the subsystem over the earlier layers: the same name map, a fixed
 * 1024-unit world, and no clamp on the mapped pixel.
 */
module LegacyWorldDataSubsystem {
  import opened Quadtree
  import opened WorldDataLayerAsset
  import opened PixelCodec
  import Legacy = LegacyWorldDataLayer
  import Current = WorldLayersSubsystem

  /** The world extent on each axis this revision assumes. */
  const LegacyWorldSize: real := 1024.0

  /** `WorldLocationToPixel`: the location scaled onto the raster and floored, with no clamp. */
  function LegacyWorldLocationToPixel(res: Point, loc: Vector2D): Point
  {
    Point((loc.x / LegacyWorldSize * res.x as real).Floor, (loc.y / LegacyWorldSize * res.y as real).Floor)
  }

  /** Along one axis, the floored scaled location lies on the raster exactly when the location lies in the world. */
  lemma AxisOnRaster(loc: real, extent: int)
    requires extent >= 1
    ensures var k := (loc / LegacyWorldSize * extent as real).Floor;
            0 <= k < extent <==> 0.0 <= loc < LegacyWorldSize
  {
    var t, e := loc / LegacyWorldSize, extent as real;
    var k := (t * e).Floor;
    Current.ScalePreservesOrder(0.0, t, e);
    Current.ScalePreservesOrder(t, 1.0, e);
    assert 0.0 * e == 0.0 && 1.0 * e == e;
    assert 0 <= k <==> 0.0 <= t * e;
    assert k < extent <==> t * e < e;
    assert 0.0 <= t <==> 0.0 <= loc;
    assert t < 1.0 <==> loc < LegacyWorldSize;
  }

  /**
   * For a raster with at least one pixel, a location maps onto the raster
   * exactly when it lies in the 1024 x 1024 world.
   */
  lemma LegacyPixelOnRasterIff(res: Point, loc: Vector2D)
    requires res.x >= 1 && res.y >= 1
    ensures InBounds(res, LegacyWorldLocationToPixel(res, loc))
            <==> 0.0 <= loc.x < LegacyWorldSize && 0.0 <= loc.y < LegacyWorldSize
  {
    AxisOnRaster(loc.x, res.x);
    AxisOnRaster(loc.y, res.y);
  }

  /**
   * The far edge of the world maps one column past the raster, and the read
   * there lands on the first pixel of the next row.
   */
  lemma LegacyFarEdgeReadsNextRow(f: DataFormat, h: HalfCodec, res: Point, data: seq<Byte>, ly: real)
    requires WellSized(res, f, data) && res.x >= 1
    ensures var px := LegacyWorldLocationToPixel(res, Vector2D(LegacyWorldSize, ly));
            && px.x == res.x
            && Legacy.LegacyRead(f, h, res, data, px) == Legacy.LegacyRead(f, h, res, data, Point(0, px.y + 1))
  {
    var px := LegacyWorldLocationToPixel(res, Vector2D(LegacyWorldSize, ly));
    assert LegacyWorldSize / LegacyWorldSize * res.x as real == res.x as real;
    Legacy.LegacyReadWrapsToNextRow(f, h, res, data, px.y);
  }

  /**
   * The value a query at `loc` reads from a layer: `GetValueAtPixel` of the
   * mapped pixel.  A location in the world reads a stored pixel; a pixel
   * whose offset is invalid reads opaque black.
   */
  function LegacySample(l: Legacy.WorldDataLayer, loc: Vector2D): (c: LinearColor)
    reads l
    requires l.Valid()
    ensures var px := LegacyWorldLocationToPixel(l.resolution, loc);
            && (l.resolution.x >= 1 && l.resolution.y >= 1
                && 0.0 <= loc.x < LegacyWorldSize && 0.0 <= loc.y < LegacyWorldSize ==>
                  && ValidOffset(l.resolution, l.config.dataFormat, l.rawData, px)
                  && c == DecodeAt(l.config.dataFormat, l.half, l.resolution, l.rawData, px))
            && (!ValidOffset(l.resolution, l.config.dataFormat, l.rawData, px) ==> c == Black)
  {
    WorldLocationHasValidOffset(l.config.dataFormat, l.resolution, l.rawData, loc);
    l.GetValueAtPixel(LegacyWorldLocationToPixel(l.resolution, loc))
  }

  /** A location in the world maps to a pixel whose offset is valid. */
  lemma WorldLocationHasValidOffset(f: DataFormat, res: Point, data: seq<Byte>, loc: Vector2D)
    requires WellSized(res, f, data)
    ensures res.x >= 1 && res.y >= 1 && 0.0 <= loc.x < LegacyWorldSize && 0.0 <= loc.y < LegacyWorldSize ==>
              ValidOffset(res, f, data, LegacyWorldLocationToPixel(res, loc))
  {
    if res.x >= 1 && res.y >= 1 && 0.0 <= loc.x < LegacyWorldSize && 0.0 <= loc.y < LegacyWorldSize {
      LegacyPixelOnRasterIff(res, loc);
      InBoundsHasValidOffset(res, f, data, LegacyWorldLocationToPixel(res, loc));
    }
  }

  /** A layer in the state the earlier `Initialize` leaves it in for this asset. */
  ghost predicate LegacyInitializedFrom(l: Legacy.WorldDataLayer, asset: LayerAsset, half: HalfCodec)
    reads l
  {
    && l.Valid()
    && l.config == asset && l.half == half
    && l.resolution == Legacy.LegacyResolution(asset)
    && l.rawData == Repeat(EncodePixel(asset.dataFormat, half, asset.defaultValue), l.resolution.x * l.resolution.y)
    && !l.isDirty
  }

  /**
   * A name map holds, under the key of every name, a layer exactly when some
   * asset carried the name, in the state the last such asset leaves it in.
   */
  ghost predicate HoldsLast(m: map<string, Legacy.WorldDataLayer>, assets: seq<Option<LayerAsset>>, half: HalfCodec)
    reads m.Values
  {
    && (forall name :: NameKey(name) in m <==> Current.LastNamed(assets, name).Some?)
    && (forall name | NameKey(name) in m ::
          LegacyInitializedFrom(m[NameKey(name)], Current.LastNamed(assets, name).value, half))
  }

  /**
   * `after` is `before` with a layer for the asset added: unchanged for a
   * missing asset, otherwise a layer in its initial state under the asset's
   * name's key and every other key kept.
   */
  ghost predicate RegisteredOver(before: map<string, Legacy.WorldDataLayer>, after: map<string, Legacy.WorldDataLayer>,
                                 asset: Option<LayerAsset>, half: HalfCodec)
    reads after.Values
  {
    && (asset.None? ==> after == before)
    && (asset.Some? ==>
          var key := NameKey(asset.value.layerName);
          && after.Keys == before.Keys + {key}
          && LegacyInitializedFrom(after[key], asset.value, half)
          && forall n | n in before && n != key :: after[n] == before[n])
  }

  /**
   * Adding a layer for the next asset keeps the map holding the last asset
   * of each name.
   */
  lemma RegisterStep(assets: seq<Option<LayerAsset>>, i: nat, half: HalfCodec,
                     before: map<string, Legacy.WorldDataLayer>, after: map<string, Legacy.WorldDataLayer>)
    requires i < |assets| && HoldsLast(before, assets[..i], half)
    requires RegisteredOver(before, after, assets[i], half)
    ensures HoldsLast(after, assets[..i + 1], half)
  {
    forall name
      ensures NameKey(name) in after <==> Current.LastNamed(assets[..i + 1], name).Some?
    {
      Current.LastNamedStep(assets, i, name);
    }
    forall name | NameKey(name) in after
      ensures LegacyInitializedFrom(after[NameKey(name)], Current.LastNamed(assets[..i + 1], name).value, half)
    {
      Current.LastNamedStep(assets, i, name);
      if !Current.Carries(assets[i], name) {
        assert after[NameKey(name)] == before[NameKey(name)];
      }
    }
  }

  /** `UMyWorldDataSubsystem`: `WorldDataLayers`, the map from layer names to earlier layers. */
  class MyWorldDataSubsystem {
    var layers: map<string, Legacy.WorldDataLayer>

    /** Every layer is sound, no two names share a layer, and every key is folded. */
    ghost predicate Valid()
      reads this, layers.Values
    {
      && (forall n | n in layers :: layers[n].Valid())
      && (forall n, m | n in layers && m in layers && n != m :: layers[n] != layers[m])
      && Current.KeysFolded(layers)
    }

    /**
     * `Initialize`: for every discovered asset in turn, a new layer
     * initialised from it takes its name, so each name holds a layer
     * initialised from the last asset of that name.  Asset discovery itself
     * is the `assets` parameter.
     */
    constructor Initialize(assets: seq<Option<LayerAsset>>, half: HalfCodec)
      requires forall i | 0 <= i < |assets| && assets[i].Some? && assets[i].value.resolutionMode == Absolute ::
                 assets[i].value.resolution.x >= 0 && assets[i].value.resolution.y >= 0
      ensures Valid()
      ensures forall name :: NameKey(name) in layers <==> Current.LastNamed(assets, name).Some?
      ensures forall name | NameKey(name) in layers ::
                LegacyInitializedFrom(layers[NameKey(name)], Current.LastNamed(assets, name).value, half)
    {
      layers := map[];
      new;
      for i := 0 to |assets|
        invariant Valid() && HoldsLast(layers, assets[..i], half)
      {
        RegisterNext(assets, i, half);
      }
      assert assets[..|assets|] == assets;
    }

    /** One step of `Initialize`'s loop: a layer for the next asset, if any, is added. */
    method RegisterNext(assets: seq<Option<LayerAsset>>, i: nat, half: HalfCodec)
      requires Valid() && i < |assets| && HoldsLast(layers, assets[..i], half)
      requires assets[i].Some? && assets[i].value.resolutionMode == Absolute ==>
                 assets[i].value.resolution.x >= 0 && assets[i].value.resolution.y >= 0
      modifies this
      ensures Valid() && HoldsLast(layers, assets[..i + 1], half)
    {
      ghost var before := layers;
      if assets[i].Some? {
        AddLayerFor(assets[i].value, half);
      }
      RegisterStep(assets, i, half, before, layers);
    }

    /** The loop body for a present asset: a new layer for it is added under its name. */
    method AddLayerFor(asset: LayerAsset, half: HalfCodec)
      requires Valid()
      requires asset.resolutionMode == Absolute ==> asset.resolution.x >= 0 && asset.resolution.y >= 0
      modifies this
      ensures Valid() && RegisteredOver(old(layers), layers, Some(asset), half)
    {
      var l := new Legacy.WorldDataLayer.Initialize(asset, half);
      assert LegacyInitializedFrom(l, asset, half);
      Add(asset.layerName, l);
    }

    /**
     * `TMap::Add`: the name's key now maps to the layer, replacing any earlier
     * entry under a case variant of the name.
     */
    method Add(name: string, l: Legacy.WorldDataLayer)
      requires Valid() && l.Valid() && l !in layers.Values
      modifies this
      ensures Valid() && layers == old(layers)[NameKey(name) := l]
    {
      var key := NameKey(name);
      NameKeyIsCanonical(name);
      layers := layers[key := l];
      forall n, m | n in layers && m in layers && n != m
        ensures layers[n] != layers[m]
      {
        if n != key && m != key {
          assert layers[n] == old(layers)[n] && layers[m] == old(layers)[m];
        }
      }
    }

    /** `Deinitialize`: forget every layer. */
    method Deinitialize()
      requires Valid()
      modifies this
      ensures Valid() && layers == map[]
    {
      layers := map[];
    }

    /**
     * `GetValueAtLocation`: whether a layer has the name, in any case; the
     * value at the location's pixel when it does, and the caller's value left
     * as it was when it does not.
     */
    method GetValueAtLocation(name: string, loc: Vector2D, value: LinearColor) returns (found: bool, outValue: LinearColor)
      requires Valid()
      ensures found == (NameKey(name) in layers)
      ensures outValue == if found then LegacySample(layers[NameKey(name)], loc) else value
    {
      var key := NameKey(name);
      if key in layers {
        var l := layers[key];
        var px := LegacyWorldLocationToPixel(l.resolution, loc);
        return true, l.GetValueAtPixel(px);
      }
      return false, value;
    }

    /** `GetFloatValueAtLocation`: the red channel of the value, or zero when there is no such layer. */
    method GetFloatValueAtLocation(name: string, loc: Vector2D) returns (r: real)
      requires Valid()
      ensures r == if NameKey(name) in layers then LegacySample(layers[NameKey(name)], loc).r else 0.0
    {
      var found, value := GetValueAtLocation(name, loc, TransparentBlack);
      if found {
        return value.r;
      }
      return 0.0;
    }

    /**
     * `SetValueAtLocation`: nothing when no layer has the name in any case;
     * otherwise `SetValueAtPixel` on the location's pixel of that layer, and
     * no other layer changes.
     */
    method SetValueAtLocation(name: string, loc: Vector2D, v: LinearColor)
      requires Valid()
      modifies layers.Values
      ensures Valid() && layers == old(layers)
      ensures NameKey(name) in layers ==>
                var l := layers[NameKey(name)];
                var px := LegacyWorldLocationToPixel(l.resolution, loc);
                && l.rawData == WriteAt(l.config.dataFormat, l.half, l.resolution, old(l.rawData), px, v)
                && l.isDirty == (old(l.isDirty) || ValidOffset(l.resolution, l.config.dataFormat, old(l.rawData), px))
      ensures forall n | n in layers && n != NameKey(name) :: unchanged(layers[n])
    {
      var key := NameKey(name);
      if key in layers {
        var l := layers[key];
        var px := LegacyWorldLocationToPixel(l.resolution, loc);
        l.SetValueAtPixel(px, v);
      }
    }
  }
}
