/**
 * `UWorldDataLayer` of WorldDataLayer.cpp: one raster layer, a flat byte
 * buffer in one of four pixel formats, with an optional spatial index of one
 * quadtree per tracked colour that every write keeps up to date.
 */
module WorldDataLayer {
  import opened Quadtree
  import opened WorldDataLayerAsset
  import opened PixelCodec

  /**
   * What the engine decides and this model cannot see: how `FFloat16`
   * converts, and whether `FBox2D::IsInside` counts a box's edges as inside.
   */
  datatype Engine = Engine(half: HalfCodec, edges: EdgeRule)

  /** The resolution `Initialize` gives the layer. */
  function LayerResolution(config: LayerAsset, worldGridSize: Vector2D): (res: Point)
    requires config.resolutionMode == RelativeToWorld ==> config.cellSize.x != 0.0 && config.cellSize.y != 0.0
    ensures config.resolutionMode == Absolute ==> res == config.resolution
    ensures config.resolutionMode == RelativeToWorld ==>
              && res.x as real - 0.5 <= worldGridSize.x / config.cellSize.x < res.x as real + 0.5
              && res.y as real - 0.5 <= worldGridSize.y / config.cellSize.y < res.y as real + 0.5
  {
    if config.resolutionMode == Absolute then config.resolution
    else Point(RoundToInt(worldGridSize.x / config.cellSize.x), RoundToInt(worldGridSize.y / config.cellSize.y))
  }

  /** A configuration `Initialize` can size a buffer for. */
  predicate ValidLayerConfig(config: LayerAsset, worldGridSize: Vector2D)
  {
    && (config.resolutionMode == RelativeToWorld ==> config.cellSize.x != 0.0 && config.cellSize.y != 0.0)
    && LayerResolution(config, worldGridSize).x >= 0
    && LayerResolution(config, worldGridSize).y >= 0
  }

  /** The root box of every index tree: the whole raster. */
  function RasterBox(res: Point): Box
  {
    Box(0.0, 0.0, res.x as real, res.y as real)
  }

  /**
   * `GetValueAtPixel` on a buffer: the default colour when either axis is
   * out of range or the offset is invalid, otherwise the decoded pixel.
   */
  function ReadPixel(config: LayerAsset, h: HalfCodec, res: Point, data: seq<Byte>, p: Point): (c: LinearColor)
    requires WellSized(res, config.dataFormat, data)
    ensures !InBounds(res, p) ==> c == config.defaultValue
    ensures InBounds(res, p) ==>
              ValidOffset(res, config.dataFormat, data, p) && c == DecodeAt(config.dataFormat, h, res, data, p)
  {
    var f := config.dataFormat;
    if p.x < 0 || p.x >= res.x || p.y < 0 || p.y >= res.y then config.defaultValue
    else if !ValidOffset(res, f, data, p) then
      InBoundsHasValidOffset(res, f, data, p);
      config.defaultValue
    else DecodeAt(f, h, res, data, p)
  }

  // ---------------------------------------------------------------------
  // Matching a colour against the tracked keys
  // ---------------------------------------------------------------------

  /**
   * The two ways the layer compares a colour with a tracked key: the full
   * four-channel `Equals` of the initial population, and the format-aware
   * comparison of the upkeep after a write (R only for single-channel
   * formats).
   */
  datatype Comparison = FullColor | FormatAware(f: DataFormat)

  predicate Matches(cmp: Comparison, c: LinearColor, key: LinearColor)
  {
    match cmp
    case FullColor => ColorEquals(c, key, KindaSmallNumber)
    case FormatAware(f) =>
      if f == R8 || f == R16F then IsNearlyEqual(c.r, key.r, SmallNumber)
      else ColorEquals(c, key, KindaSmallNumber)
  }

  /** The position of the first key matching `c`: the tree the `break` stops at. */
  function FirstMatch(keys: seq<LinearColor>, c: LinearColor, cmp: Comparison): (r: Option<nat>)
    ensures r.Some? ==> r.value < |keys| && Matches(cmp, c, keys[r.value])
    ensures r.Some? ==> forall j | 0 <= j < r.value :: !Matches(cmp, c, keys[j])
    ensures r.None? ==> forall j | 0 <= j < |keys| :: !Matches(cmp, c, keys[j])
  {
    if keys == [] then None
    else if Matches(cmp, c, keys[0]) then Some(0)
    else
      match FirstMatch(keys[1..], c, cmp)
      case None => None
      case Some(i) => Some(i + 1)
  }

  /**
   * The keys of the index map built from `ValuesToTrack`: emplacing a key
   * that is already present keeps its first position.
   */
  function DistinctKeys(values: seq<LinearColor>): (keys: seq<LinearColor>)
    ensures forall i, j | 0 <= i < j < |keys| :: keys[i] != keys[j]
    ensures forall v :: v in keys <==> v in values
  {
    if values == [] then []
    else
      var init, last := DistinctKeys(values[..|values| - 1]), values[|values| - 1];
      assert values == values[..|values| - 1] + [last];
      if last in init then init else init + [last]
  }

  // ---------------------------------------------------------------------
  // The index and its consistency with the buffer
  // ---------------------------------------------------------------------

  /**
   * The index describes the buffer: tree `i` holds each in-range pixel whose
   * colour the upkeep would file under key `i`, exactly once, and nothing else.
   */
  ghost predicate IndexConsistent(config: LayerAsset, h: HalfCodec, res: Point, data: seq<Byte>,
                                  keys: seq<LinearColor>, roots: seq<Node>)
    requires WellSized(res, config.dataFormat, data)
  {
    && |roots| == |keys|
    && forall i | 0 <= i < |roots| :: TreeConsistent(config, h, res, data, keys, roots[i], i)
  }

  /** Tree `i` holds each in-range pixel filed under key `i` once, and nothing else. */
  ghost predicate TreeConsistent(config: LayerAsset, h: HalfCodec, res: Point, data: seq<Byte>,
                                 keys: seq<LinearColor>, root: Node, i: nat)
    requires WellSized(res, config.dataFormat, data)
  {
    forall q :: Contents(root)[q]
                == if InBounds(res, q) && FirstMatch(keys, ReadPixel(config, h, res, data, q), FormatAware(config.dataFormat)) == Some(i)
                   then 1 else 0
  }

  /**
   * Tree `i` holds once each in-range pixel visited before position `limit`
   * whose colour `cmp` files under key `i`, and nothing else.
   */
  ghost predicate TreeFiledUpTo(config: LayerAsset, h: HalfCodec, res: Point, data: seq<Byte>,
                                keys: seq<LinearColor>, root: Node, i: nat, cmp: Comparison, limit: int)
    requires WellSized(res, config.dataFormat, data)
  {
    forall q :: Contents(root)[q]
                == if InBounds(res, q) && Rank(res, q) < limit && FirstMatch(keys, ReadPixel(config, h, res, data, q), cmp) == Some(i)
                   then 1 else 0
  }

  /**
   * The index as the population loop of `Initialize` leaves it: every
   * in-range pixel filed by the full four-channel comparison.
   */
  ghost predicate IndexPopulated(config: LayerAsset, h: HalfCodec, res: Point, data: seq<Byte>,
                                 keys: seq<LinearColor>, roots: seq<Node>)
    requires WellSized(res, config.dataFormat, data)
  {
    && |roots| == |keys|
    && forall i | 0 <= i < |roots| :: TreeFiledUpTo(config, h, res, data, keys, roots[i], i, FullColor, res.x * res.y)
  }

  /** An empty tree has filed nothing yet. */
  lemma EmptyTreeFiledNothing(config: LayerAsset, h: HalfCodec, res: Point, data: seq<Byte>,
                              keys: seq<LinearColor>, i: nat, cmp: Comparison)
    requires WellSized(res, config.dataFormat, data)
    ensures TreeFiledUpTo(config, h, res, data, keys, Node(RasterBox(res), [], []), i, cmp, 0)
  {
    forall q | InBounds(res, q)
      ensures Rank(res, q) >= 0
    {
      RankIsInjective(res, q, q);
    }
  }

  /**
   * One step of the population loop: the pixel at position `Rank(res, p)`
   * goes into the tree of the first matching key, and no other tree changes.
   */
  lemma PopulateStep(config: LayerAsset, h: HalfCodec, res: Point, data: seq<Byte>, keys: seq<LinearColor>,
                     root: Node, i: nat, cmp: Comparison, p: Point)
    requires WellSized(res, config.dataFormat, data) && WellFormed(root) && InBounds(res, p)
    requires TreeFiledUpTo(config, h, res, data, keys, root, i, cmp, Rank(res, p))
    ensures var root' := if FirstMatch(keys, ReadPixel(config, h, res, data, p), cmp) == Some(i)
                         then Inserted(root, p, DefaultMaxPointsPerNode) else root;
            TreeFiledUpTo(config, h, res, data, keys, root', i, cmp, Rank(res, p) + 1)
  {
    InsertedIsSound(root, p, DefaultMaxPointsPerNode);
    forall q | InBounds(res, q) && q != p
      ensures Rank(res, q) != Rank(res, p)
    {
      RankIsInjective(res, q, p);
    }
  }

  /** After the last pixel every in-range pixel has been visited. */
  lemma PopulationIsComplete(config: LayerAsset, h: HalfCodec, res: Point, data: seq<Byte>, keys: seq<LinearColor>,
                             root: Node, i: nat, cmp: Comparison)
    requires WellSized(res, config.dataFormat, data)
    requires TreeFiledUpTo(config, h, res, data, keys, root, i, cmp, res.x * res.y)
    ensures forall q :: Contents(root)[q]
                        == if InBounds(res, q) && FirstMatch(keys, ReadPixel(config, h, res, data, q), cmp) == Some(i)
                           then 1 else 0
  {
    forall q | InBounds(res, q)
      ensures Rank(res, q) < res.x * res.y
    {
      RankIsInjective(res, q, q);
    }
  }

  /**
   * For the four-channel formats the index `Initialize` builds is already
   * consistent in the sense the write upkeep maintains.
   */
  lemma FourChannelInitialIndexIsConsistent(config: LayerAsset, h: HalfCodec, res: Point, data: seq<Byte>,
                                            keys: seq<LinearColor>, roots: seq<Node>)
    requires WellSized(res, config.dataFormat, data)
    requires config.dataFormat == RGBA8 || config.dataFormat == RGBA16F
    requires IndexPopulated(config, h, res, data, keys, roots)
    ensures IndexConsistent(config, h, res, data, keys, roots)
  {
    forall i | 0 <= i < |roots|
      ensures TreeConsistent(config, h, res, data, keys, roots[i], i)
    {
      PopulationIsComplete(config, h, res, data, keys, roots[i], i, FullColor);
      forall q
        ensures FirstMatch(keys, ReadPixel(config, h, res, data, q), FullColor)
             == FirstMatch(keys, ReadPixel(config, h, res, data, q), FormatAware(config.dataFormat))
      {
        FourChannelPopulationIsConsistent(config, h, keys, ReadPixel(config, h, res, data, q));
      }
    }
  }

  /**
   * Right after `Initialize` every in-range pixel holds the stored default,
   * so all of them sit in the tree of the first key equal to it and every
   * other tree is empty.
   */
  lemma InitialIndexHoldsDefault(config: LayerAsset, h: HalfCodec, res: Point, keys: seq<LinearColor>, roots: seq<Node>)
    requires res.x >= 0 && res.y >= 0
    requires var data := Repeat(EncodePixel(config.dataFormat, h, config.defaultValue), res.x * res.y);
             WellSized(res, config.dataFormat, data) && IndexPopulated(config, h, res, data, keys, roots)
    ensures var stored := DecodePixel(config.dataFormat, h, EncodePixel(config.dataFormat, h, config.defaultValue));
            forall i, q | 0 <= i < |roots| ::
              Contents(roots[i])[q] == if InBounds(res, q) && FirstMatch(keys, stored, FullColor) == Some(i) then 1 else 0
  {
    var f := config.dataFormat;
    var data := Repeat(EncodePixel(f, h, config.defaultValue), res.x * res.y);
    forall i, q | 0 <= i < |roots|
      ensures Contents(roots[i])[q]
           == if InBounds(res, q) && FirstMatch(keys, DecodePixel(f, h, EncodePixel(f, h, config.defaultValue)), FullColor) == Some(i)
              then 1 else 0
    {
      PopulationIsComplete(config, h, res, data, keys, roots[i], i, FullColor);
      if InBounds(res, q) {
        FilledBufferReads(f, h, res, config.defaultValue, q);
      }
    }
  }

  /**
   * Tree `i` after a write at `p`: the pixel is removed from the tree the old
   * value selects and inserted into the tree the new value selects.
   */
  ghost function TreeAfterWrite(n: Node, i: nat, p: Point, removeFrom: Option<nat>, insertInto: Option<nat>,
                                rule: EdgeRule): (r: Node)
    requires WellFormed(n)
    ensures WellFormed(r) && r.bounds == n.bounds
  {
    RemoveFromNodeIsSound(n, p, rule);
    var m := if removeFrom == Some(i) then RemoveFromNode(n, p, rule).1 else n;
    InsertedIsSound(m, p, DefaultMaxPointsPerNode);
    if insertInto == Some(i) then Inserted(m, p, DefaultMaxPointsPerNode) else m
  }

  /** The index after a write, for a layer whose trees all cover the raster. */
  ghost function IndexAfterWrite(roots: seq<Node>, p: Point, removeFrom: Option<nat>, insertInto: Option<nat>,
                                 rule: EdgeRule): (r: seq<Node>)
    requires forall i | 0 <= i < |roots| :: WellFormed(roots[i])
    ensures |r| == |roots|
    ensures forall i | 0 <= i < |roots| :: r[i] == TreeAfterWrite(roots[i], i, p, removeFrom, insertInto, rule)
  {
    seq(|roots|, i requires 0 <= i < |roots| => TreeAfterWrite(roots[i], i, p, removeFrom, insertInto, rule))
  }

  /**
   * The raw new value and what the buffer will return for it select the same
   * tree; quantisation does not move the colour across a key's tolerance.
   */
  predicate ClassifiedAlike(config: LayerAsset, h: HalfCodec, keys: seq<LinearColor>, v: LinearColor)
  {
    var f := config.dataFormat;
    FirstMatch(keys, v, FormatAware(f)) == FirstMatch(keys, DecodePixel(f, h, EncodePixel(f, h, v)), FormatAware(f))
  }

  /** How many copies of `q` one tree holds after a write at `p`. */
  lemma TreeAfterWriteCount(n: Node, i: nat, p: Point, removeFrom: Option<nat>, insertInto: Option<nat>, q: Point)
    requires WellFormed(n) && InClosedBox(n.bounds, p)
    ensures Contents(TreeAfterWrite(n, i, p, removeFrom, insertInto, IncludesEdges))[q]
         == (if q == p && removeFrom == Some(i) then 0 else Contents(n)[q])
            + (if q == p && insertInto == Some(i) then 1 else 0)
  {
    IncludedEdgesReachLeaf(n, p);
    RemoveFromNodeIsSound(n, p, IncludesEdges);
    var m := if removeFrom == Some(i) then RemoveFromNode(n, p, IncludesEdges).1 else n;
    assert Contents(m)[q] == if q == p && removeFrom == Some(i) then 0 else Contents(n)[q];
    InsertedContents(m, p, DefaultMaxPointsPerNode);
    assert TreeAfterWrite(n, i, p, removeFrom, insertInto, IncludesEdges)
        == if insertInto == Some(i) then Inserted(m, p, DefaultMaxPointsPerNode) else m;
  }

  /**
   * A write keeps the index consistent when the pixel is in range, the
   * engine counts box edges as inside (so the removal reaches the leaf), and
   * the new value is classified alike before and after quantisation.
   */
  lemma WriteKeepsIndexConsistent(config: LayerAsset, h: HalfCodec, res: Point, data: seq<Byte>,
                                  keys: seq<LinearColor>, roots: seq<Node>, p: Point, v: LinearColor)
    requires WellSized(res, config.dataFormat, data)
    requires forall i | 0 <= i < |roots| :: WellFormed(roots[i]) && roots[i].bounds == RasterBox(res)
    requires IndexConsistent(config, h, res, data, keys, roots)
    requires InBounds(res, p) && ClassifiedAlike(config, h, keys, v)
    ensures var f := config.dataFormat;
            IndexConsistent(config, h, res, WriteAt(f, h, res, data, p, v), keys,
                            IndexAfterWrite(roots, p, FirstMatch(keys, ReadPixel(config, h, res, data, p), FormatAware(f)),
                                            FirstMatch(keys, v, FormatAware(f)), IncludesEdges))
  {
    var f := config.dataFormat;
    var cmp := FormatAware(f);
    var data' := WriteAt(f, h, res, data, p, v);
    var removeFrom := FirstMatch(keys, ReadPixel(config, h, res, data, p), cmp);
    var insertInto := FirstMatch(keys, v, cmp);
    var roots' := IndexAfterWrite(roots, p, removeFrom, insertInto, IncludesEdges);
    forall i | 0 <= i < |roots'|
      ensures TreeConsistent(config, h, res, data', keys, roots'[i], i)
    {
      WriteKeepsTreeConsistent(config, h, res, data, keys, roots[i], i, p, v);
    }
  }

  /** The same for one tree. */
  lemma WriteKeepsTreeConsistent(config: LayerAsset, h: HalfCodec, res: Point, data: seq<Byte>,
                                 keys: seq<LinearColor>, root: Node, i: nat, p: Point, v: LinearColor)
    requires WellSized(res, config.dataFormat, data)
    requires WellFormed(root) && root.bounds == RasterBox(res)
    requires TreeConsistent(config, h, res, data, keys, root, i)
    requires InBounds(res, p) && ClassifiedAlike(config, h, keys, v)
    ensures var f := config.dataFormat;
            TreeConsistent(config, h, res, WriteAt(f, h, res, data, p, v), keys,
                           TreeAfterWrite(root, i, p, FirstMatch(keys, ReadPixel(config, h, res, data, p), FormatAware(f)),
                                          FirstMatch(keys, v, FormatAware(f)), IncludesEdges), i)
  {
    var f := config.dataFormat;
    var cmp := FormatAware(f);
    var data' := WriteAt(f, h, res, data, p, v);
    var removeFrom := FirstMatch(keys, ReadPixel(config, h, res, data, p), cmp);
    var insertInto := FirstMatch(keys, v, cmp);
    var root' := TreeAfterWrite(root, i, p, removeFrom, insertInto, IncludesEdges);
    forall q
      ensures Contents(root')[q]
           == if InBounds(res, q) && FirstMatch(keys, ReadPixel(config, h, res, data', q), cmp) == Some(i) then 1 else 0
    {
      TreeAfterWriteCount(root, i, p, removeFrom, insertInto, q);
      LayerReadAfterWrite(config, h, res, data, p, v, q);
      CountAfterWrite(Contents(root)[q], Contents(root')[q], i, q == p, InBounds(res, q),
                      FirstMatch(keys, ReadPixel(config, h, res, data, q), cmp),
                      FirstMatch(keys, ReadPixel(config, h, res, data', q), cmp), removeFrom, insertInto);
    }
  }

  /** The bookkeeping of one tree's count for one pixel across a write. */
  lemma CountAfterWrite(before: nat, after: nat, i: nat, atWrite: bool, inBounds: bool,
                        matchBefore: Option<nat>, matchAfter: Option<nat>,
                        removeFrom: Option<nat>, insertInto: Option<nat>)
    requires before == if inBounds && matchBefore == Some(i) then 1 else 0
    requires after == (if atWrite && removeFrom == Some(i) then 0 else before)
                      + (if atWrite && insertInto == Some(i) then 1 else 0)
    requires atWrite ==> inBounds && matchBefore == removeFrom && matchAfter == insertInto
    requires !atWrite ==> matchAfter == matchBefore
    ensures after == if inBounds && matchAfter == Some(i) then 1 else 0
  {
  }

  /**
   * After an in-range write, the written pixel reads as the decoded encoding
   * of the new value and every other pixel reads as before.
   */
  lemma LayerReadAfterWrite(config: LayerAsset, h: HalfCodec, res: Point, data: seq<Byte>, p: Point, v: LinearColor,
                            q: Point)
    requires WellSized(res, config.dataFormat, data) && InBounds(res, p)
    ensures var data' := WriteAt(config.dataFormat, h, res, data, p, v);
            ReadPixel(config, h, res, data', q)
            == if q == p then DecodePixel(config.dataFormat, h, EncodePixel(config.dataFormat, h, v))
               else ReadPixel(config, h, res, data, q)
  {
    var f := config.dataFormat;
    InBoundsHasValidOffset(res, f, data, p);
    if q == p {
      ReadAfterWrite(f, h, res, data, p, v);
    } else if InBounds(res, q) {
      InBoundsHasValidOffset(res, f, data, q);
      InBoundsPixelsHaveDistinctOffsets(res, f, p, q);
      WriteIsLocal(f, h, res, data, p, q, v);
    }
  }

  /**
   * For the four-channel formats the initial population and the upkeep
   * compare alike, so a freshly populated index is consistent.
   */
  lemma FourChannelPopulationIsConsistent(config: LayerAsset, h: HalfCodec, keys: seq<LinearColor>, c: LinearColor)
    requires config.dataFormat == RGBA8 || config.dataFormat == RGBA16F
    ensures FirstMatch(keys, c, FullColor) == FirstMatch(keys, c, FormatAware(config.dataFormat))
  {
    assert forall k :: Matches(FullColor, c, k) == Matches(FormatAware(config.dataFormat), c, k);
    FirstMatchRespectsEquivalence(keys, c, FullColor, FormatAware(config.dataFormat));
  }

  lemma {:induction false} FirstMatchRespectsEquivalence(keys: seq<LinearColor>, c: LinearColor, a: Comparison, b: Comparison)
    requires forall k :: Matches(a, c, k) == Matches(b, c, k)
    ensures FirstMatch(keys, c, a) == FirstMatch(keys, c, b)
  {
    if keys != [] {
      FirstMatchRespectsEquivalence(keys[1..], c, a, b);
    }
  }

  /**
   * For a single-channel layer the two comparisons disagree: a key with
   * non-zero alpha, opaque red, is never matched at population (decoded
   * pixels have alpha 0) although the upkeep files red pixels under it.
   */
  lemma SingleChannelPopulationMissesOpaqueKey(h: HalfCodec)
    ensures var red := LinearColor(1.0, 0.0, 0.0, 1.0);
            var stored := DecodePixel(R8, h, EncodePixel(R8, h, red));
            && FirstMatch([red], stored, FullColor) == None
            && FirstMatch([red], stored, FormatAware(R8)) == Some(0)
  {
    var red := LinearColor(1.0, 0.0, 0.0, 1.0);
    assert Encode8(1.0) == 255 by {
      assert RoundToInt(1.0 * 255.0) == 255;
    }
  }

  /**
   * Quantisation can move a value across a key: 0.999 written to an R8 layer
   * tracking 1.0 is not filed under the key, yet reads back as exactly 1.0.
   */
  lemma QuantisationCanReclassify(h: HalfCodec)
    ensures var key, v := LinearColor(1.0, 0.0, 0.0, 0.0), LinearColor(0.999, 0.0, 0.0, 0.0);
            && FirstMatch([key], v, FormatAware(R8)) == None
            && FirstMatch([key], DecodePixel(R8, h, EncodePixel(R8, h, v)), FormatAware(R8)) == Some(0)
  {
    assert RoundToInt(0.999 * 255.0) == 255;
  }

  /**
   * A write off the raster breaks the index.  `SetValueAtPixel` checks only
   * the flat offset, so a pixel one past the end of a row is written (into
   * the first pixel of the next row), and the upkeep files the off-raster
   * point under the new value's key: that tree now holds a point no
   * consistent tree may hold, whatever the index held before.
   */
  lemma OffRasterWriteBreaksConsistency(config: LayerAsset, h: HalfCodec, res: Point, data: seq<Byte>,
                                        keys: seq<LinearColor>, roots: seq<Node>, p: Point, v: LinearColor)
    requires WellSized(res, config.dataFormat, data)
    requires forall i | 0 <= i < |roots| :: WellFormed(roots[i]) && roots[i].bounds == RasterBox(res)
    requires ValidOffset(res, config.dataFormat, data, p) && !InBounds(res, p) && InClosedBox(RasterBox(res), p)
    requires FirstMatch(keys, v, FormatAware(config.dataFormat)).Some?
    ensures var f := config.dataFormat;
            !IndexConsistent(config, h, res, WriteAt(f, h, res, data, p, v), keys,
                             IndexAfterWrite(roots, p, FirstMatch(keys, ReadPixel(config, h, res, data, p), FormatAware(f)),
                                             FirstMatch(keys, v, FormatAware(f)), IncludesEdges))
  {
    var f := config.dataFormat;
    var removeFrom := FirstMatch(keys, ReadPixel(config, h, res, data, p), FormatAware(f));
    var insertInto := FirstMatch(keys, v, FormatAware(f));
    var i := insertInto.value;
    if |roots| == |keys| {
      var roots' := IndexAfterWrite(roots, p, removeFrom, insertInto, IncludesEdges);
      TreeAfterWriteCount(roots[i], i, p, removeFrom, insertInto, p);
      assert Contents(roots'[i])[p] != if InBounds(res, p) then 1 else 0;
      assert !TreeConsistent(config, h, res, WriteAt(f, h, res, data, p, v), keys, roots'[i], i);
    }
  }

  /**
   * The case arises on a consistent index: on a blank 1x2 R8 raster
   * tracking red, (1, 0) has a valid offset, lies on the raster's closed
   * box but off the raster, and red is filed under red; the write turns
   * (0, 1) red.
   */
  lemma OffRasterWriteExample(config: LayerAsset, h: HalfCodec)
    requires config.dataFormat == R8
    ensures var res, red, p := Point(1, 2), LinearColor(1.0, 0.0, 0.0, 0.0), Point(1, 0);
            && IndexConsistent(config, h, res, [0, 0], [red], [Node(RasterBox(res), [], [])])
            && ValidOffset(res, R8, [0, 0], p) && !InBounds(res, p) && InClosedBox(RasterBox(res), p)
            && FirstMatch([red], red, FormatAware(R8)) == Some(0)
            && ReadPixel(config, h, res, WriteAt(R8, h, res, [0, 0], p, red), Point(0, 1)) == red
  {
    var red := LinearColor(1.0, 0.0, 0.0, 0.0);
    BlankRasterIndexIsConsistent(config, h);
    OffRasterWriteLandsInNextRow(config, h);
    assert Matches(FormatAware(R8), red, red);
  }

  /** Before the write: nothing on the blank 1x2 R8 raster is red, and the empty tree says so. */
  lemma BlankRasterIndexIsConsistent(config: LayerAsset, h: HalfCodec)
    requires config.dataFormat == R8
    ensures IndexConsistent(config, h, Point(1, 2), [0, 0], [LinearColor(1.0, 0.0, 0.0, 0.0)],
                            [Node(RasterBox(Point(1, 2)), [], [])])
  {
    var res, red, data := Point(1, 2), LinearColor(1.0, 0.0, 0.0, 0.0), [0, 0];
    var empty := Node(RasterBox(res), [], []);
    assert Contents(empty) == multiset{};
    forall q | InBounds(res, q)
      ensures FirstMatch([red], ReadPixel(config, h, res, data, q), FormatAware(R8)) == None
    {
      assert PixelBytes(data, PixelIndex(q, res.x, R8), R8) == [0];
      assert !Matches(FormatAware(R8), LinearColor(0.0, 0.0, 0.0, 0.0), red);
    }
    assert TreeConsistent(config, h, res, data, [red], empty, 0);
  }

  /** The write at column 1 of row 0 lands in the bytes of pixel (0, 1). */
  lemma OffRasterWriteLandsInNextRow(config: LayerAsset, h: HalfCodec)
    requires config.dataFormat == R8
    ensures var res, red := Point(1, 2), LinearColor(1.0, 0.0, 0.0, 0.0);
            && ValidOffset(res, R8, [0, 0], Point(1, 0)) && !InBounds(res, Point(1, 0))
            && ReadPixel(config, h, res, WriteAt(R8, h, res, [0, 0], Point(1, 0), red), Point(0, 1)) == red
  {
    var res, red, p := Point(1, 2), LinearColor(1.0, 0.0, 0.0, 0.0), Point(1, 0);
    var data' := WriteAt(R8, h, res, [0, 0], p, red);
    ReadAfterWrite(R8, h, res, [0, 0], p, red);
    ColumnPastRowEndIsNextRow(res, R8, 0);
    assert DecodeAt(R8, h, res, data', Point(0, 1)) == DecodeAt(R8, h, res, data', p);
    assert Encode8(1.0) == 255 by {
      assert RoundToInt(1.0 * 255.0) == 255;
    }
    assert DecodePixel(R8, h, EncodePixel(R8, h, red)) == red;
  }

  /** The root nodes of a sequence of trees. */
  ghost function RootsOf(trees: seq<Quadtree>): (roots: seq<Node>)
    reads trees
    ensures |roots| == |trees| && forall i | 0 <= i < |trees| :: roots[i] == trees[i].root
  {
    seq(|trees|, i reads trees requires 0 <= i < |trees| => trees[i].root)
  }

  // ---------------------------------------------------------------------
  // The layer object
  // ---------------------------------------------------------------------

  /** `UWorldDataLayer`, with `SpatialIndices` as its keys and trees in map order. */
  class WorldDataLayer {
    const config: LayerAsset
    const engine: Engine
    const resolution: Point
    var rawData: seq<Byte>
    var isDirty: bool
    var indexKeys: seq<LinearColor>
    var indexTrees: seq<Quadtree>
    ghost var Repr: set<object>

    ghost predicate Valid()
      reads this, Repr
    {
      WellSized(resolution, config.dataFormat, rawData) && IndexValid()
    }

    /**
     * The index map: distinct keys, one tree object of its own per key, and
     * no keys at all unless the asset asks for the index.
     */
    ghost predicate IndexValid()
      reads this`Repr, this`indexKeys, this`indexTrees, Repr
    {
      IndexShape() && TreesValid()
    }

    /** The shape of the index map, apart from the trees' contents. */
    ghost predicate IndexShape()
      reads this`Repr, this`indexKeys, this`indexTrees
    {
      && Repr == (set i | 0 <= i < |indexTrees| :: indexTrees[i] as object)
      && |indexKeys| == |indexTrees|
      && (forall i, j | 0 <= i < j < |indexKeys| :: indexKeys[i] != indexKeys[j])
      && (forall i, j | 0 <= i < j < |indexTrees| :: indexTrees[i] != indexTrees[j])
      && (!config.spatialOptimization.buildAccelerationStructure ==> indexKeys == [])
    }

    /** Every index tree is sound, has the default capacity and covers the raster. */
    ghost predicate TreesValid()
      reads this`indexTrees, indexTrees
    {
      forall i | 0 <= i < |indexTrees| ::
        && indexTrees[i].Valid()
        && indexTrees[i].maxPointsPerNode == DefaultMaxPointsPerNode
        && indexTrees[i].root.bounds == RasterBox(resolution)
    }

    /** The roots of the index trees, in map order. */
    ghost function Roots(): (roots: seq<Node>)
      reads this`indexTrees, indexTrees
      ensures |roots| == |indexTrees| && forall i | 0 <= i < |indexTrees| :: roots[i] == indexTrees[i].root
    {
      RootsOf(indexTrees)
    }

    /**
     * `Initialize`: size the buffer for the configured resolution, set every
     * pixel to the default value, clear the dirty flag and, when configured,
     * build one tree per distinct tracked value and file every pixel in it.
     */
    constructor Initialize(inConfig: LayerAsset, worldGridSize: Vector2D, inEngine: Engine)
      requires ValidLayerConfig(inConfig, worldGridSize)
      ensures Valid() && fresh(Repr)
      ensures config == inConfig && engine == inEngine && resolution == LayerResolution(inConfig, worldGridSize)
      ensures rawData == Repeat(EncodePixel(config.dataFormat, engine.half, config.defaultValue), resolution.x * resolution.y)
      ensures !isDirty
      ensures indexKeys == if config.spatialOptimization.buildAccelerationStructure
                           then DistinctKeys(config.spatialOptimization.valuesToTrack) else []
      ensures IndexPopulated(config, engine.half, resolution, rawData, indexKeys, Roots())
    {
      config, engine := inConfig, inEngine;
      var res := LayerResolution(inConfig, worldGridSize);
      resolution := res;
      MultiplyIsMonotonic(0, res.x, res.y);
      MultiplyIsMonotonic(0, res.x * res.y, BytesPerPixel(inConfig.dataFormat));
      rawData := Zeroes(res.x * res.y * BytesPerPixel(inConfig.dataFormat));
      isDirty := false;
      indexKeys, indexTrees, Repr := [], [], {};
      new;
      EmptyFillIsZeroes(EncodePixel(config.dataFormat, engine.half, config.defaultValue), res.x * res.y);
      FillWithDefault();
      isDirty := false;
      if config.spatialOptimization.buildAccelerationStructure {
        CreateIndexTrees();
        PopulateIndex();
      }
    }

    /** The first `k` pixels, in row-major order, hold the default value and the rest are still zero. */
    ghost predicate FilledUpTo(k: int)
      reads this
    {
      && 0 <= k <= resolution.x * resolution.y
      && rawData == FilledPrefix(EncodePixel(config.dataFormat, engine.half, config.defaultValue), k, resolution.x * resolution.y)
    }

    /** The first loop of `Initialize`: `SetValueAtPixel` with the default on every pixel, row by row. */
    method FillWithDefault()
      requires Valid() && indexTrees == [] && FilledUpTo(0)
      modifies this`rawData, this`isDirty
      ensures Valid()
      ensures rawData == Repeat(EncodePixel(config.dataFormat, engine.half, config.defaultValue), resolution.x * resolution.y)
    {
      var y := 0;
      ghost var k := 0;
      while y < resolution.y
        invariant 0 <= y <= resolution.y && k == y * resolution.x
        invariant Valid() && FilledUpTo(k)
      {
        FillRow(y, k);
        RowStep(resolution.x, y);
        y, k := y + 1, k + resolution.x;
      }
      PixelCountCommutes(resolution);
      FilledBufferIsRepeat(EncodePixel(config.dataFormat, engine.half, config.defaultValue), k);
    }

    /** One row of the fill loop; `start` is the rank of the row's first pixel. */
    method FillRow(y: int, ghost start: int)
      requires Valid() && indexTrees == [] && 0 <= y < resolution.y && start == y * resolution.x && FilledUpTo(start)
      modifies this`rawData, this`isDirty
      ensures Valid() && FilledUpTo(start + resolution.x)
    {
      var x := 0;
      ghost var k := start;
      while x < resolution.x
        invariant 0 <= x <= resolution.x && k == start + x
        invariant Valid() && FilledUpTo(k)
      {
        FillPixel(Point(x, y), k);
        x, k := x + 1, k + 1;
      }
    }

    /** One pixel of the fill loop; `k` is its rank. */
    method FillPixel(p: Point, ghost k: int)
      requires Valid() && indexTrees == [] && InBounds(resolution, p) && k == Rank(resolution, p) && FilledUpTo(k)
      modifies this`rawData, this`isDirty
      ensures Valid() && FilledUpTo(k + 1)
    {
      FillPixelStep(config.dataFormat, engine.half, resolution, config.defaultValue, p);
      SetValueAtPixel(p, config.defaultValue);
    }

    /**
     * The tree creation loop of `Initialize`: the index map is emptied and
     * each tracked value gets an empty tree over the raster.
     */
    method CreateIndexTrees()
      requires Valid() && config.spatialOptimization.buildAccelerationStructure
      modifies this`indexKeys, this`indexTrees, this`Repr
      ensures Valid() && fresh(Repr)
      ensures indexKeys == DistinctKeys(config.spatialOptimization.valuesToTrack)
      ensures forall i | 0 <= i < |indexTrees| :: indexTrees[i].root == Node(RasterBox(resolution), [], [])
    {
      indexKeys, indexTrees, Repr := [], [], {};
      var values := config.spatialOptimization.valuesToTrack;
      for j := 0 to |values|
        invariant Valid() && fresh(Repr)
        invariant indexKeys == DistinctKeys(values[..j])
        invariant forall i | 0 <= i < |indexTrees| :: indexTrees[i].root == Node(RasterBox(resolution), [], [])
      {
        assert values[..j + 1][..j] == values[..j];
        EmplaceTracked(values[j]);
      }
      assert values[..|values|] == values;
    }

    /**
     * `Emplace` of one tracked value with a new empty tree. A value already in
     * the map keeps its position; the empty tree it already has stands for
     * the new one.
     */
    method EmplaceTracked(v: LinearColor)
      requires Valid() && config.spatialOptimization.buildAccelerationStructure
      requires forall i | 0 <= i < |indexTrees| :: indexTrees[i].root == Node(RasterBox(resolution), [], [])
      modifies this`indexKeys, this`indexTrees, this`Repr
      ensures Valid() && fresh(Repr - old(Repr))
      ensures indexKeys == if v in old(indexKeys) then old(indexKeys) else old(indexKeys) + [v]
      ensures forall i | 0 <= i < |indexTrees| :: indexTrees[i].root == Node(RasterBox(resolution), [], [])
    {
      if v !in indexKeys {
        var t := new Quadtree(RasterBox(resolution));
        ghost var trees0 := indexTrees;
        indexKeys, indexTrees, Repr := indexKeys + [v], indexTrees + [t], Repr + {t};
        assert Repr == (set i | 0 <= i < |indexTrees| :: indexTrees[i] as object) by {
          forall o | o in Repr
            ensures o in (set i | 0 <= i < |indexTrees| :: indexTrees[i] as object)
          {
            if o == t {
              assert indexTrees[|trees0|] == t;
            } else {
              var i :| 0 <= i < |trees0| && trees0[i] == o;
              assert indexTrees[i] == o;
            }
          }
        }
      }
    }

    /** Every tree has filed the pixels before row-major position `k`. */
    ghost predicate FiledUpTo(k: int)
      reads this`rawData, this`indexKeys, this`indexTrees, indexTrees
    {
      && WellSized(resolution, config.dataFormat, rawData)
      && forall i | 0 <= i < |indexTrees| ::
           TreeFiledUpTo(config, engine.half, resolution, rawData, indexKeys, indexTrees[i].root, i, FullColor, k)
    }

    /**
     * The population loop of `Initialize`: every pixel, row by row, goes
     * into the tree of the first key its value `Equals`.
     */
    method PopulateIndex()
      requires Valid()
      requires forall i | 0 <= i < |indexTrees| :: indexTrees[i].root == Node(RasterBox(resolution), [], [])
      modifies Repr
      ensures Valid()
      ensures IndexPopulated(config, engine.half, resolution, rawData, indexKeys, Roots())
    {
      forall i | 0 <= i < |indexTrees|
        ensures TreeFiledUpTo(config, engine.half, resolution, rawData, indexKeys, indexTrees[i].root, i, FullColor, 0)
      {
        EmptyTreeFiledNothing(config, engine.half, resolution, rawData, indexKeys, i, FullColor);
      }
      var y := 0;
      while y < resolution.y
        invariant 0 <= y <= resolution.y
        invariant Valid() && FiledUpTo(y * resolution.x)
      {
        PopulateRow(y);
        y := y + 1;
      }
      PixelCountCommutes(resolution);
    }

    /** One row of the population loop. */
    method PopulateRow(y: int)
      requires Valid() && 0 <= y < resolution.y && FiledUpTo(y * resolution.x)
      modifies Repr
      ensures Valid() && FiledUpTo((y + 1) * resolution.x)
    {
      ghost var start := y * resolution.x;
      var x := 0;
      while x < resolution.x
        invariant 0 <= x <= resolution.x
        invariant Valid() && FiledUpTo(start + x)
      {
        FilePixel(Point(x, y));
        x := x + 1;
      }
      RowStep(resolution.x, y);
    }

    /** The body of the population loop for one pixel. */
    method FilePixel(p: Point)
      requires Valid() && InBounds(resolution, p) && FiledUpTo(Rank(resolution, p))
      modifies Repr
      ensures Valid() && FiledUpTo(Rank(resolution, p) + 1)
    {
      ghost var roots0 := Roots();
      var v := GetValueAtPixel(p);
      var r := FindIndexFor(v, FullColor);
      if r.Some? {
        InsertIntoTree(r.value, p);
      }
      forall i | 0 <= i < |indexTrees|
        ensures TreeFiledUpTo(config, engine.half, resolution, rawData, indexKeys, indexTrees[i].root, i, FullColor,
                              Rank(resolution, p) + 1)
      {
        PopulateStep(config, engine.half, resolution, rawData, indexKeys, roots0[i], i, FullColor, p);
      }
    }

    /** `GetValueAtPixel`. */
    function GetValueAtPixel(p: Point): (c: LinearColor)
      reads this
      requires WellSized(resolution, config.dataFormat, rawData)
      ensures !InBounds(resolution, p) ==> c == config.defaultValue
      ensures InBounds(resolution, p) ==>
                ValidOffset(resolution, config.dataFormat, rawData, p)
                && c == DecodeAt(config.dataFormat, engine.half, resolution, rawData, p)
    {
      ReadPixel(config, engine.half, resolution, rawData, p)
    }

    /** The loop over `SpatialIndices` up to the first key that matches. */
    method FindIndexFor(c: LinearColor, cmp: Comparison) returns (r: Option<nat>)
      ensures r == FirstMatch(indexKeys, c, cmp)
    {
      r := None;
      for i := 0 to |indexKeys|
        invariant FirstMatch(indexKeys[..i], c, cmp) == None
      {
        if Matches(cmp, c, indexKeys[i]) {
          r := Some(i);
          FirstMatchOfPrefix(indexKeys, i, c, cmp);
          return;
        }
        FirstMatchOfPrefix(indexKeys, i, c, cmp);
      }
      assert indexKeys[..|indexKeys|] == indexKeys;
    }

    /**
     * `SetValueAtPixel`: a no-op when the offset is invalid; otherwise the
     * pixel's bytes get the encoding of the new value and the layer is marked
     * dirty, and when the index is built and non-empty the pixel leaves the
     * first tree matching its old read-back value and joins the first tree
     * matching the raw new value.
     */
    method SetValueAtPixel(p: Point, newValue: LinearColor)
      requires Valid()
      modifies this`rawData, this`isDirty, Repr
      ensures Valid() && Repr == old(Repr)
      ensures indexKeys == old(indexKeys) && indexTrees == old(indexTrees)
      ensures rawData == WriteAt(config.dataFormat, engine.half, resolution, old(rawData), p, newValue)
      ensures isDirty == (old(isDirty) || ValidOffset(resolution, config.dataFormat, old(rawData), p))
      ensures Roots() == if ValidOffset(resolution, config.dataFormat, old(rawData), p)
                            && config.spatialOptimization.buildAccelerationStructure && |indexKeys| > 0
                         then IndexAfterWrite(old(Roots()), p,
                                              FirstMatch(indexKeys, old(GetValueAtPixel(p)), FormatAware(config.dataFormat)),
                                              FirstMatch(indexKeys, newValue, FormatAware(config.dataFormat)), engine.edges)
                         else old(Roots())
    {
      var idx := PixelIndex(p, resolution.x, config.dataFormat);
      if !(0 <= idx < |rawData|) {
        return;
      }
      var shouldUpdateIndex := config.spatialOptimization.buildAccelerationStructure && |indexKeys| > 0;
      var oldValue := Black;
      if shouldUpdateIndex {
        oldValue := GetValueAtPixel(p);
      }
      StoreAt(p, idx, newValue);
      if shouldUpdateIndex {
        var removeFrom := FindIndexFor(oldValue, FormatAware(config.dataFormat));
        var insertInto := FindIndexFor(newValue, FormatAware(config.dataFormat));
        UpdateIndex(p, removeFrom, insertInto);
      }
    }

    /** The store of `SetValueAtPixel` once the offset is known to be valid. */
    method StoreAt(p: Point, idx: int, newValue: LinearColor)
      requires Valid() && idx == PixelIndex(p, resolution.x, config.dataFormat) && 0 <= idx < |rawData|
      modifies this`rawData, this`isDirty
      ensures Valid() && Roots() == old(Roots())
      ensures rawData == WriteAt(config.dataFormat, engine.half, resolution, old(rawData), p, newValue)
      ensures isDirty
    {
      OffsetHoldsPixel(resolution, config.dataFormat, rawData, p);
      rawData := StorePixel(rawData, idx, config.dataFormat, engine.half, newValue);
      isDirty := true;
    }

    /**
     * The two loops over `SpatialIndices` after the store: remove the pixel
     * from the tree selected for the old value, then insert it into the tree
     * selected for the new one.
     */
    method UpdateIndex(p: Point, removeFrom: Option<nat>, insertInto: Option<nat>)
      requires Valid()
      requires removeFrom.Some? ==> removeFrom.value < |indexTrees|
      requires insertInto.Some? ==> insertInto.value < |indexTrees|
      modifies Repr
      ensures Valid() && unchanged(this)
      ensures Roots() == IndexAfterWrite(old(Roots()), p, removeFrom, insertInto, engine.edges)
    {
      ghost var roots0 := Roots();
      if removeFrom.Some? {
        RemoveFromTree(removeFrom.value, p);
      }
      ghost var roots1 := Roots();
      if insertInto.Some? {
        InsertIntoTree(insertInto.value, p);
      }
      IndexAfterWriteSteps(roots0, roots1, Roots(), p, removeFrom, insertInto, engine.edges);
    }

    /** `Remove` on one index tree. */
    method RemoveFromTree(k: nat, p: Point)
      requires Valid() && k < |indexTrees|
      modifies indexTrees[k]
      ensures Valid()
      ensures Roots() == old(Roots())[k := RemoveFromNode(old(Roots())[k], p, engine.edges).1]
    {
      var t := indexTrees[k];
      RemoveFromNodeIsSound(t.root, p, engine.edges);
      var _ := t.Remove(p, engine.edges);
      assert forall j | 0 <= j < |indexTrees| && j != k :: indexTrees[j] != t;
    }

    /** `Insert` on one index tree. */
    method InsertIntoTree(k: nat, p: Point)
      requires Valid() && k < |indexTrees|
      modifies indexTrees[k]
      ensures Valid()
      ensures Roots() == old(Roots())[k := Inserted(old(Roots())[k], p, DefaultMaxPointsPerNode)]
    {
      var t := indexTrees[k];
      InsertedIsSound(t.root, p, DefaultMaxPointsPerNode);
      t.Insert(p);
      assert forall j | 0 <= j < |indexTrees| && j != k :: indexTrees[j] != t;
    }
  }

  /** The index after the removal step and then the insertion step is the index after the write. */
  lemma IndexAfterWriteSteps(roots0: seq<Node>, roots1: seq<Node>, roots2: seq<Node>, p: Point,
                             removeFrom: Option<nat>, insertInto: Option<nat>, rule: EdgeRule)
    requires forall i | 0 <= i < |roots0| :: WellFormed(roots0[i])
    requires removeFrom.Some? ==> removeFrom.value < |roots0|
    requires insertInto.Some? ==> insertInto.value < |roots0|
    requires roots1 == if removeFrom.Some? then roots0[removeFrom.value := RemoveFromNode(roots0[removeFrom.value], p, rule).1]
                       else roots0
    requires |roots1| == |roots0| && forall i | 0 <= i < |roots1| :: WellFormed(roots1[i])
    requires roots2 == if insertInto.Some? then roots1[insertInto.value := Inserted(roots1[insertInto.value], p, DefaultMaxPointsPerNode)]
                       else roots1
    ensures roots2 == IndexAfterWrite(roots0, p, removeFrom, insertInto, rule)
  {
    var r := IndexAfterWrite(roots0, p, removeFrom, insertInto, rule);
    forall i | 0 <= i < |roots0|
      ensures roots2[i] == r[i]
    {
    }
  }

  lemma {:induction false} FirstMatchOfPrefix(keys: seq<LinearColor>, i: nat, c: LinearColor, cmp: Comparison)
    requires i < |keys| && FirstMatch(keys[..i], c, cmp) == None
    ensures Matches(cmp, c, keys[i]) ==> FirstMatch(keys, c, cmp) == Some(i)
    ensures !Matches(cmp, c, keys[i]) ==> FirstMatch(keys[..i + 1], c, cmp) == None
  {
    if i > 0 {
      assert keys[..i][1..] == keys[1..][..i - 1];
      assert keys[..i + 1][1..] == keys[1..][..i];
      FirstMatchOfPrefix(keys[1..], i - 1, c, cmp);
    }
  }
}
