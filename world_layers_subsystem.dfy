/**
 * `UWorldLayersSubsystem` (WorldLayersSubsystem.cpp): the registry of live
 * layers by name, and the mapping from world locations to the pixels the
 * queries and writes address.
 */
module WorldLayersSubsystem {
  import opened Quadtree
  import opened WorldDataLayerAsset
  import opened PixelCodec
  import Layer = WorldDataLayer

  /** The fixed world extent on each axis that absolute layers are stretched over. */
  const WorldBounds: real := 102400.0

  /** The cell size is a usable divisor for a layer sized relative to the world. */
  predicate CellSizeUsable(config: LayerAsset)
  {
    config.resolutionMode == RelativeToWorld ==> config.cellSize.x != 0.0 && config.cellSize.y != 0.0
  }

  /** One axis of `WorldLocationToPixel` before the clamp. */
  function CellIndex(mode: ResolutionMode, loc: real, extent: int, cell: real): int
    requires mode == RelativeToWorld ==> cell != 0.0
  {
    if mode == Absolute then (loc / WorldBounds * extent as real).Floor else (loc / cell).Floor
  }

  /** The width in world units of one pixel along an axis. */
  function CellWidth(mode: ResolutionMode, extent: int, cell: real): real
    requires mode == Absolute ==> extent != 0
  {
    if mode == Absolute then WorldBounds / extent as real else cell
  }

  /**
   * `WorldLocationToPixel`: the cell the location falls in, clamped onto the
   * raster.  Whenever the raster has a pixel, the result is one of its pixels,
   * and a cell already on the raster is kept as it is.
   */
  function WorldLocationToPixel(config: LayerAsset, res: Point, loc: Vector2D): (px: Point)
    requires CellSizeUsable(config)
    ensures res.x >= 1 && res.y >= 1 ==> InBounds(res, px)
    ensures var cx, cy := CellIndex(config.resolutionMode, loc.x, res.x, config.cellSize.x),
                          CellIndex(config.resolutionMode, loc.y, res.y, config.cellSize.y);
            InBounds(res, Point(cx, cy)) ==> px == Point(cx, cy)
  {
    var cx := CellIndex(config.resolutionMode, loc.x, res.x, config.cellSize.x);
    var cy := CellIndex(config.resolutionMode, loc.y, res.y, config.cellSize.y);
    Point(Clamp(cx, 0, res.x - 1), Clamp(cy, 0, res.y - 1))
  }

  /**
   * Along one axis, the cell index is the cell whose span of world units
   * holds the location, and it lies on the raster exactly when the location
   * lies within the raster's extent.
   */
  lemma CellHoldsLocation(mode: ResolutionMode, loc: real, extent: int, cell: real)
    requires extent >= 1 && (mode == RelativeToWorld ==> cell > 0.0)
    ensures var w, k := CellWidth(mode, extent, cell), CellIndex(mode, loc, extent, cell);
            && w > 0.0
            && k as real * w <= loc < k as real * w + w
            && (0 <= k < extent <==> 0.0 <= loc < extent as real * w)
  {
    if mode == Absolute {
      var w := WorldBounds / extent as real;
      StretchIsDivision(loc, extent as real);
      assert CellIndex(mode, loc, extent, cell) == (loc / w).Floor;
      QuotientCell(loc, w, extent);
    } else {
      QuotientCell(loc, cell, extent);
    }
  }

  /** `CellHoldsLocation` for the cell index written as a floored quotient by the width. */
  lemma QuotientCell(loc: real, w: real, extent: int)
    requires w > 0.0
    ensures var k := (loc / w).Floor;
            && k as real * w <= loc < k as real * w + w
            && (0 <= k < extent <==> 0.0 <= loc < extent as real * w)
  {
    DivisionBracket(loc, w);
    FloorInRange(loc / w, extent);
    QuotientRange(loc, w, extent as real);
  }

  lemma FloorInRange(t: real, n: int)
    ensures 0 <= t.Floor < n <==> 0.0 <= t < n as real
  {
  }

  lemma QuotientRange(loc: real, w: real, e: real)
    requires w > 0.0
    ensures 0.0 <= loc / w < e <==> 0.0 <= loc < e * w
  {
    QuotientTimesDivisor(loc, w);
    ScalePreservesOrder(0.0, loc / w, w);
    ScalePreservesOrder(loc / w, e, w);
  }

  /** Stretching over the world bounds is dividing by the width of one pixel. */
  lemma StretchIsDivision(loc: real, e: real)
    requires e > 0.0
    ensures WorldBounds / e > 0.0
    ensures loc / WorldBounds * e == loc / (WorldBounds / e)
  {
  }

  /** The floor of a quotient by a positive width brackets the dividend between that many widths and one more. */
  lemma DivisionBracket(loc: real, w: real)
    requires w > 0.0
    ensures (loc / w).Floor as real * w <= loc < (loc / w).Floor as real * w + w
  {
    QuotientTimesDivisor(loc, w);
    FloorBounds(loc / w);
    ScaledBracket(loc / w, (loc / w).Floor as real, w, loc);
  }

  lemma QuotientTimesDivisor(loc: real, w: real)
    requires w > 0.0
    ensures loc / w * w == loc
  {
  }

  lemma FloorBounds(t: real)
    ensures t.Floor as real <= t < t.Floor as real + 1.0
  {
  }

  /** A multiple `t` of `w` with `lo <= t < lo + 1` lies between `lo` widths and one more. */
  lemma ScaledBracket(t: real, lo: real, w: real, loc: real)
    requires w > 0.0 && lo <= t < lo + 1.0 && t * w == loc
    ensures lo * w <= loc < lo * w + w
  {
    var d := t - lo;
    assert 0.0 <= d < 1.0;
    Distribute(lo, d, w);
    assert loc == lo * w + d * w;
    assert d * w >= 0.0;
    assert d * w < w by {
      assert (1.0 - d) * w > 0.0;
      Distribute(1.0, -d, w);
    }
  }

  lemma Distribute(a: real, b: real, w: real)
    ensures (a + b) * w == a * w + b * w
  {
  }

  /** Scaling by a positive width keeps the order of two reals, strict or not. */
  lemma ScalePreservesOrder(a: real, b: real, w: real)
    requires w > 0.0
    ensures a <= b <==> a * w <= b * w
    ensures a < b <==> a * w < b * w
  {
  }

  /**
   * Along one axis, the pixel never moves backwards as the location moves
   * forwards, clamp included (for a non-empty raster and a positive cell size).
   */
  lemma WorldLocationToPixelIsMonotone(config: LayerAsset, res: Point, a: Vector2D, b: Vector2D)
    requires CellSizeUsable(config) && res.x >= 1 && res.y >= 1
    requires config.resolutionMode == RelativeToWorld ==> config.cellSize.x > 0.0 && config.cellSize.y > 0.0
    requires a.x <= b.x && a.y <= b.y
    ensures WorldLocationToPixel(config, res, a).x <= WorldLocationToPixel(config, res, b).x
    ensures WorldLocationToPixel(config, res, a).y <= WorldLocationToPixel(config, res, b).y
  {
    CellIndexIsMonotone(config.resolutionMode, a.x, b.x, res.x, config.cellSize.x);
    CellIndexIsMonotone(config.resolutionMode, a.y, b.y, res.y, config.cellSize.y);
  }

  lemma CellIndexIsMonotone(mode: ResolutionMode, a: real, b: real, extent: int, cell: real)
    requires extent >= 1 && (mode == RelativeToWorld ==> cell > 0.0) && a <= b
    ensures CellIndex(mode, a, extent, cell) <= CellIndex(mode, b, extent, cell)
  {
    if mode == Absolute {
      ScaleIsMonotone(a / WorldBounds, b / WorldBounds, extent as real);
    } else {
      DivideIsMonotone(a, b, cell);
    }
  }

  lemma ScaleIsMonotone(a: real, b: real, c: real)
    requires a <= b && c >= 0.0
    ensures a * c <= b * c
  {
  }

  lemma DivideIsMonotone(a: real, b: real, c: real)
    requires a <= b && c > 0.0
    ensures a / c <= b / c
  {
  }

  /**
   * The value a query at `loc` reads from a layer: `GetValueAtPixel` of the
   * mapped pixel.  A layer with at least one pixel answers with a stored
   * pixel, never with its default; a layer with an empty raster answers with
   * its default.
   */
  function Sample(l: Layer.WorldDataLayer, loc: Vector2D): (c: LinearColor)
    reads l
    requires WellSized(l.resolution, l.config.dataFormat, l.rawData) && CellSizeUsable(l.config)
    ensures var px := WorldLocationToPixel(l.config, l.resolution, loc);
            l.resolution.x >= 1 && l.resolution.y >= 1 ==>
              && ValidOffset(l.resolution, l.config.dataFormat, l.rawData, px)
              && c == DecodeAt(l.config.dataFormat, l.engine.half, l.resolution, l.rawData, px)
    ensures l.resolution.x < 1 || l.resolution.y < 1 ==> c == l.config.defaultValue
  {
    l.GetValueAtPixel(WorldLocationToPixel(l.config, l.resolution, loc))
  }

  /**
   * A write at one location followed by a read at another, on the same layer
   * state: locations mapping to the written pixel read the decoded encoding
   * of the new value, every other location reads as before.
   */
  lemma SampleAfterWrite(config: LayerAsset, h: HalfCodec, res: Point, data: seq<Byte>,
                         at: Vector2D, v: LinearColor, loc: Vector2D)
    requires WellSized(res, config.dataFormat, data) && CellSizeUsable(config) && res.x >= 1 && res.y >= 1
    ensures var p, q := WorldLocationToPixel(config, res, at), WorldLocationToPixel(config, res, loc);
            var data' := WriteAt(config.dataFormat, h, res, data, p, v);
            Layer.ReadPixel(config, h, res, data', q)
            == if q == p then DecodePixel(config.dataFormat, h, EncodePixel(config.dataFormat, h, v))
               else Layer.ReadPixel(config, h, res, data, q)
  {
    var p, q := WorldLocationToPixel(config, res, at), WorldLocationToPixel(config, res, loc);
    Layer.LayerReadAfterWrite(config, h, res, data, p, v, q);
  }

  /** The asset is present and carries `name`, compared as `FName`s compare. */
  predicate Carries(asset: Option<LayerAsset>, name: string)
  {
    asset.Some? && SameName(asset.value.layerName, name)
  }

  /**
   * The last asset in discovery order that carries `name`: later assets of
   * the same name, in any case, replace earlier ones in the map.
   */
  function LastNamed(assets: seq<Option<LayerAsset>>, name: string): Option<LayerAsset>
  {
    if |assets| == 0 then None
    else if Carries(assets[|assets| - 1], name) then assets[|assets| - 1]
    else LastNamed(assets[..|assets| - 1], name)
  }

  /**
   * `LastNamed` finds an asset of that name, the latest one, exactly when
   * one was discovered.
   */
  lemma LastNamedIsLatest(assets: seq<Option<LayerAsset>>, name: string)
    ensures var r := LastNamed(assets, name);
            && (r.Some? ==> SameName(r.value.layerName, name))
            && (r.Some? ==> exists i | 0 <= i < |assets| ::
                  && assets[i] == r
                  && forall j | i < j < |assets| :: !Carries(assets[j], name))
            && (r.None? ==> forall i | 0 <= i < |assets| :: !Carries(assets[i], name))
  {
    LastNamedCarries(assets, name);
    LastNamedHasNoLaterMatch(assets, name);
    LastNamedNoneMeansAbsent(assets, name);
  }

  /** A found asset is present and carries the name. */
  lemma {:induction false} LastNamedCarries(assets: seq<Option<LayerAsset>>, name: string)
    ensures LastNamed(assets, name).Some? ==> Carries(LastNamed(assets, name), name)
  {
    if |assets| > 0 && !Carries(assets[|assets| - 1], name) {
      LastNamedCarries(assets[..|assets| - 1], name);
    }
  }

  /** A found asset is one of the assets, and no later asset carries the name. */
  lemma {:induction false} LastNamedHasNoLaterMatch(assets: seq<Option<LayerAsset>>, name: string)
    ensures LastNamed(assets, name).Some? ==> exists i | 0 <= i < |assets| ::
              && assets[i] == LastNamed(assets, name)
              && forall j | i < j < |assets| :: !Carries(assets[j], name)
  {
    if |assets| > 0 {
      var last := |assets| - 1;
      var front := assets[..last];
      if Carries(assets[last], name) {
        assert assets[last] == LastNamed(assets, name);
      } else {
        assert LastNamed(assets, name) == LastNamed(front, name);
        LastNamedHasNoLaterMatch(front, name);
        if LastNamed(front, name).Some? {
          var i :| 0 <= i < |front| && front[i] == LastNamed(front, name)
                   && forall j | i < j < |front| :: !Carries(front[j], name);
          assert forall j | i < j < |front| :: front[j] == assets[j];
          assert assets[i] == front[i];
        }
      }
    }
  }

  /** Nothing is found exactly when no asset carries the name. */
  lemma {:induction false} LastNamedNoneMeansAbsent(assets: seq<Option<LayerAsset>>, name: string)
    ensures LastNamed(assets, name).None? ==> forall i | 0 <= i < |assets| :: !Carries(assets[i], name)
  {
    if |assets| > 0 && !Carries(assets[|assets| - 1], name) {
      LastNamedNoneMeansAbsent(assets[..|assets| - 1], name);
      assert forall i | 0 <= i < |assets| - 1 :: assets[i] == assets[..|assets| - 1][i];
    }
  }

  /** Case variants of a name find the same asset. */
  lemma {:induction false} LastNamedIgnoresCase(assets: seq<Option<LayerAsset>>, a: string, b: string)
    requires SameName(a, b)
    ensures LastNamed(assets, a) == LastNamed(assets, b)
  {
    if |assets| > 0 {
      LastNamedIgnoresCase(assets[..|assets| - 1], a, b);
    }
  }

  /**
   * Assets named "Roads" and then "roads" are one name: the later asset is
   * the one registered, and a lookup of "ROADS" finds it.
   */
  lemma CaseVariantReplacesEarlierAsset(first: LayerAsset, second: LayerAsset)
    requires first.layerName == "Roads" && second.layerName == "roads"
    ensures LastNamed([Some(first), Some(second)], "ROADS") == Some(second)
    ensures LastNamed([Some(first)], "ROADS") == Some(first)
  {
    CaseVariantsAreOneName();
  }

  /** Registering one more asset changes the last asset of its own name only. */
  lemma LastNamedStep(assets: seq<Option<LayerAsset>>, i: nat, name: string)
    requires i < |assets|
    ensures LastNamed(assets[..i + 1], name)
            == if Carries(assets[i], name) then assets[i] else LastNamed(assets[..i], name)
  {
    assert assets[..i + 1][..i] == assets[..i];
  }

  /**
   * A name map holds, under the key of every name, a layer exactly when some
   * asset carried the name, initialised from the last such asset.
   */
  ghost predicate HoldsLast(m: map<string, Layer.WorldDataLayer>, assets: seq<Option<LayerAsset>>,
                            worldGridSize: Vector2D, engine: Layer.Engine)
    reads m.Values
  {
    && (forall name :: NameKey(name) in m <==> LastNamed(assets, name).Some?)
    && (forall name | NameKey(name) in m ::
          InitializedFrom(m[NameKey(name)], LastNamed(assets, name).value, worldGridSize, engine))
  }

  /**
   * `after` is `before` with the asset registered: unchanged for a missing
   * asset, otherwise a layer initialised from it under its name's key and
   * every other key kept.
   */
  ghost predicate RegisteredOver(before: map<string, Layer.WorldDataLayer>, after: map<string, Layer.WorldDataLayer>,
                                 asset: Option<LayerAsset>, worldGridSize: Vector2D, engine: Layer.Engine)
    reads after.Values
  {
    && (asset.None? ==> after == before)
    && (asset.Some? ==>
          var key := NameKey(asset.value.layerName);
          && after.Keys == before.Keys + {key}
          && InitializedFrom(after[key], asset.value, worldGridSize, engine)
          && forall n | n in before && n != key :: after[n] == before[n])
  }

  /**
   * Registering the next asset turns a name map holding the last asset of
   * each name so far into one holding the last asset of each name after it.
   */
  lemma RegisterStep(assets: seq<Option<LayerAsset>>, i: nat, worldGridSize: Vector2D, engine: Layer.Engine,
                     before: map<string, Layer.WorldDataLayer>, after: map<string, Layer.WorldDataLayer>)
    requires i < |assets| && HoldsLast(before, assets[..i], worldGridSize, engine)
    requires RegisteredOver(before, after, assets[i], worldGridSize, engine)
    ensures HoldsLast(after, assets[..i + 1], worldGridSize, engine)
  {
    forall name
      ensures NameKey(name) in after <==> LastNamed(assets[..i + 1], name).Some?
    {
      LastNamedStep(assets, i, name);
    }
    forall name | NameKey(name) in after
      ensures InitializedFrom(after[NameKey(name)], LastNamed(assets[..i + 1], name).value, worldGridSize, engine)
    {
      LastNamedStep(assets, i, name);
      if !Carries(assets[i], name) {
        assert after[NameKey(name)] == before[NameKey(name)];
      }
    }
  }

  /** Every key of a registry is the key of its own name, as `FName` keys are. */
  ghost predicate KeysFolded<T>(layers: map<string, T>)
  {
    forall n | n in layers :: NameKey(n) == n
  }

  /**
   * A layer whose buffer and index keys are as `Initialize` leaves them for
   * this asset (the population of its trees is stated where it is built).
   */
  ghost predicate InitializedFrom(l: Layer.WorldDataLayer, asset: LayerAsset, worldGridSize: Vector2D, engine: Layer.Engine)
    reads l
  {
    && Layer.ValidLayerConfig(asset, worldGridSize)
    && l.config == asset && l.engine == engine
    && l.resolution == Layer.LayerResolution(asset, worldGridSize)
    && l.rawData == Repeat(EncodePixel(asset.dataFormat, engine.half, asset.defaultValue), l.resolution.x * l.resolution.y)
    && !l.isDirty
    && l.indexKeys == (if asset.spatialOptimization.buildAccelerationStructure
                       then Layer.DistinctKeys(asset.spatialOptimization.valuesToTrack) else [])
  }

  /**
   * The registry invariant over a name map and the objects it owns: every
   * layer is sound and owns its trees, the owner is none of them, and no two
   * names share a layer or a tree.
   */
  ghost predicate Registry(layers: map<string, Layer.WorldDataLayer>, repr: set<object>, owner: object)
    reads repr
  {
    && owner !in repr
    && (forall n | n in layers :: layers[n] in repr && layers[n].Repr <= repr)
    && (forall n | n in layers :: layers[n].Valid() && CellSizeUsable(layers[n].config))
    && (forall n, m | n in layers && m in layers && n != m ::
          && layers[n] != layers[m]
          && layers[n] !in layers[m].Repr
          && layers[n].Repr !! layers[m].Repr)
  }

  /** A sound layer with objects of its own can join the registry under any name. */
  lemma RegistryAdd(layers: map<string, Layer.WorldDataLayer>, repr: set<object>, owner: object,
                    name: string, l: Layer.WorldDataLayer)
    requires Registry(layers, repr, owner)
    requires l.Valid() && CellSizeUsable(l.config)
    requires l !in repr && l.Repr !! repr && owner != l && owner !in l.Repr
    ensures Registry(layers[name := l], repr + {l} + l.Repr, owner)
  {
    var layers', repr' := layers[name := l], repr + {l} + l.Repr;
    forall n | n in layers'
      ensures layers'[n] in repr' && layers'[n].Repr <= repr'
      ensures layers'[n].Valid() && CellSizeUsable(layers'[n].config)
    {
    }
    forall n, m | n in layers' && m in layers' && n != m
      ensures layers'[n] != layers'[m] && layers'[n] !in layers'[m].Repr && layers'[n].Repr !! layers'[m].Repr
    {
      if n == name {
        assert layers'[m] == layers[m] && layers[m] in repr && layers[m].Repr <= repr;
      } else if m == name {
        assert layers'[n] == layers[n] && layers[n] in repr && layers[n].Repr <= repr;
      }
    }
  }

  /** `UWorldLayersSubsystem`: `WorldDataLayers`, the map from layer names to layers. */
  class WorldLayersSubsystem {
    var layers: map<string, Layer.WorldDataLayer>
    ghost var Repr: set<object>

    /** Every layer is sound and owns its objects alone; no two names share a layer. */
    ghost predicate Valid()
      reads this, Repr
    {
      Registry(layers, Repr, this) && KeysFolded(layers)
    }

    /**
     * `Initialize`: register a layer for every discovered asset in turn, so
     * each name holds a layer initialised from the last asset of that name.
     * Asset discovery itself is the `assets` parameter.
     */
    constructor Initialize(assets: seq<Option<LayerAsset>>, worldGridSize: Vector2D, engine: Layer.Engine)
      requires forall i | 0 <= i < |assets| && assets[i].Some? :: Layer.ValidLayerConfig(assets[i].value, worldGridSize)
      ensures Valid() && fresh(Repr)
      ensures forall name :: NameKey(name) in layers <==> LastNamed(assets, name).Some?
      ensures forall name | NameKey(name) in layers ::
                InitializedFrom(layers[NameKey(name)], LastNamed(assets, name).value, worldGridSize, engine)
    {
      layers, Repr := map[], {};
      new;
      for i := 0 to |assets|
        invariant Valid() && HoldsLast(layers, assets[..i], worldGridSize, engine) && fresh(Repr)
      {
        RegisterNext(assets, i, worldGridSize, engine);
      }
      assert assets[..|assets|] == assets;
    }

    /** One step of `Initialize`'s loop: the next asset is registered. */
    method RegisterNext(assets: seq<Option<LayerAsset>>, i: nat, worldGridSize: Vector2D, engine: Layer.Engine)
      requires Valid() && i < |assets| && HoldsLast(layers, assets[..i], worldGridSize, engine)
      requires assets[i].Some? ==> Layer.ValidLayerConfig(assets[i].value, worldGridSize)
      modifies this
      ensures Valid() && HoldsLast(layers, assets[..i + 1], worldGridSize, engine) && fresh(Repr - old(Repr))
    {
      ghost var before := layers;
      assert before.Values <= Repr && this !in Repr;
      RegisterDataLayer(assets[i], worldGridSize, engine);
      RegisterStep(assets, i, worldGridSize, engine, before, layers);
    }

    /** `Deinitialize`: forget every layer. */
    method Deinitialize()
      requires Valid()
      modifies this
      ensures Valid() && layers == map[]
    {
      layers := map[];
    }

    /**
     * `RegisterDataLayer`: nothing for a missing asset; otherwise a new
     * layer initialised from the asset takes the asset's name, replacing any
     * layer registered under it (in any case) before, and every other name
     * keeps its layer.
     */
    method RegisterDataLayer(asset: Option<LayerAsset>, worldGridSize: Vector2D, engine: Layer.Engine)
      requires Valid()
      requires asset.Some? ==> Layer.ValidLayerConfig(asset.value, worldGridSize)
      modifies this
      ensures Valid() && fresh(Repr - old(Repr))
      ensures asset.None? ==> layers == old(layers)
      ensures asset.Some? ==>
                var name := NameKey(asset.value.layerName);
                && layers.Keys == old(layers).Keys + {name}
                && fresh(layers[name])
                && InitializedFrom(layers[name], asset.value, worldGridSize, engine)
                && forall n | n in old(layers) && n != name :: layers[n] == old(layers)[n]
    {
      if asset.Some? {
        var l := new Layer.WorldDataLayer.Initialize(asset.value, worldGridSize, engine);
        assert InitializedFrom(l, asset.value, worldGridSize, engine);
        Add(asset.value.layerName, l);
      }
    }

    /**
     * `TMap::Add`: the name's key now maps to the layer, replacing any earlier
     * entry under a case variant of the name.
     */
    method Add(name: string, l: Layer.WorldDataLayer)
      requires Valid() && l.Valid() && CellSizeUsable(l.config)
      requires l !in Repr && l.Repr !! Repr && this !in l.Repr
      modifies this
      ensures Valid() && Repr == old(Repr) + {l} + l.Repr
      ensures layers == old(layers)[NameKey(name) := l]
    {
      var key := NameKey(name);
      RegistryAdd(layers, Repr, this, key, l);
      NameKeyIsCanonical(name);
      layers := layers[key := l];
      Repr := Repr + {l} + l.Repr;
    }

    /**
     * `GetValueAtLocation`: whether a layer has the name, in any case, and
     * the value at the location's pixel, or transparent black when there is
     * no such layer.
     */
    method GetValueAtLocation(name: string, loc: Vector2D) returns (found: bool, value: LinearColor)
      requires Valid()
      ensures found == (NameKey(name) in layers)
      ensures value == if found then Sample(layers[NameKey(name)], loc) else TransparentBlack
    {
      var key := NameKey(name);
      if key in layers {
        var l := layers[key];
        var px := WorldLocationToPixel(l.config, l.resolution, loc);
        return true, l.GetValueAtPixel(px);
      }
      return false, TransparentBlack;
    }

    /** `GetFloatValueAtLocation`: the red channel of the value, or zero when there is no such layer. */
    method GetFloatValueAtLocation(name: string, loc: Vector2D) returns (r: real)
      requires Valid()
      ensures r == if NameKey(name) in layers then Sample(layers[NameKey(name)], loc).r else 0.0
    {
      var found, value := GetValueAtLocation(name, loc);
      if found {
        return value.r;
      }
      return 0.0;
    }

    /**
     * `SetValueAtLocation`: nothing when no layer has the name in any case;
     * otherwise `SetValueAtPixel` on the location's pixel of that layer, and
     * no other layer changes.
     */
    method SetValueAtLocation(name: string, loc: Vector2D, v: LinearColor)
      requires Valid()
      modifies Repr
      ensures Valid() && layers == old(layers) && Repr == old(Repr)
      ensures NameKey(name) in layers ==>
                var l := layers[NameKey(name)];
                var px := WorldLocationToPixel(l.config, l.resolution, loc);
                && l.rawData == WriteAt(l.config.dataFormat, l.engine.half, l.resolution, old(l.rawData), px, v)
                && l.isDirty == (old(l.isDirty) || ValidOffset(l.resolution, l.config.dataFormat, old(l.rawData), px))
                && l.indexKeys == old(l.indexKeys)
                && l.Roots() == if ValidOffset(l.resolution, l.config.dataFormat, old(l.rawData), px)
                                   && l.config.spatialOptimization.buildAccelerationStructure && |l.indexKeys| > 0
                                then Layer.IndexAfterWrite(old(l.Roots()), px,
                                       Layer.FirstMatch(l.indexKeys, old(l.GetValueAtPixel(px)), Layer.FormatAware(l.config.dataFormat)),
                                       Layer.FirstMatch(l.indexKeys, v, Layer.FormatAware(l.config.dataFormat)), l.engine.edges)
                                else old(l.Roots())
      ensures forall n | n in layers && n != NameKey(name) ::
                layers[n].rawData == old(layers[n].rawData) && layers[n].isDirty == old(layers[n].isDirty)
      ensures forall n | n in layers && n != NameKey(name) :: unchanged(layers[n]) && layers[n].Roots() == old(layers[n].Roots())
      ensures NameKey(name) !in layers ==> unchanged(Repr)
    {
      var key := NameKey(name);
      if key in layers {
        var l := layers[key];
        var px := WorldLocationToPixel(l.config, l.resolution, loc);
        l.SetValueAtPixel(px, v);
        assert forall n | n in layers && n != key :: unchanged(layers[n]) && unchanged(layers[n].Repr);
      }
    }
  }
}
