/**
 * The configuration types of WorldDataLayerAsset.h and the engine colour
 * helpers the layers compare colours with.
 */
module WorldDataLayerAsset {
  import opened Quadtree

  /** A value that may be missing: a null pointer, a failed lookup. */
  datatype Option<T> = None | Some(value: T)

  /** `EResolutionMode`. */
  datatype ResolutionMode = Absolute | RelativeToWorld

  /** `EDataFormat`: one or four channels of 8-bit unsigned or 16-bit half floats. */
  datatype DataFormat = R8 | R16F | RGBA8 | RGBA16F

  /** `FVector2D`. */
  datatype Vector2D = Vector2D(x: real, y: real)

  /** `FLinearColor`. */
  datatype LinearColor = LinearColor(r: real, g: real, b: real, a: real)

  /** `FLinearColor::Black`: opaque black. */
  const Black: LinearColor := LinearColor(0.0, 0.0, 0.0, 1.0)

  /** The colour the subsystem reports for a missing layer. */
  const TransparentBlack: LinearColor := LinearColor(0.0, 0.0, 0.0, 0.0)

  /** `FWorldDataLayerSpatialOptimization` (the structure type has a single value). */
  datatype SpatialOptimization = SpatialOptimization(buildAccelerationStructure: bool, valuesToTrack: seq<LinearColor>)

  /**
   * `UWorldDataLayerAsset`, reduced to the fields the layers and the
   * subsystems read.  `resolution` is an `FIntPoint`.
   */
  datatype LayerAsset = LayerAsset(
    layerName: string,
    resolutionMode: ResolutionMode,
    resolution: Point,
    cellSize: Vector2D,
    dataFormat: DataFormat,
    defaultValue: LinearColor,
    spatialOptimization: SpatialOptimization)

  /** One character as `FName` compares it: ASCII capitals fold to lower case. */
  function FoldChar(c: char): char
  {
    if 'A' <= c <= 'Z' then (c as int + 32) as char else c
  }

  /**
   * The key an `FName` is compared and hashed by: case is ignored, so two
   * names are one name exactly when their keys agree.  The key has the
   * name's length; `NameKeyFolds` gives its characters.
   */
  function NameKey(s: string): (k: string)
    ensures |k| == |s|
  {
    if |s| == 0 then [] else [FoldChar(s[0])] + NameKey(s[1..])
  }

  /** The key folds the name character by character. */
  lemma {:induction false} NameKeyFolds(s: string)
    ensures forall i | 0 <= i < |s| :: NameKey(s)[i] == FoldChar(s[i])
  {
    if |s| > 0 {
      NameKeyFolds(s[1..]);
    }
  }

  /** `FName::operator==`: the names agree once case is ignored. */
  predicate SameName(a: string, b: string)
  {
    NameKey(a) == NameKey(b)
  }

  /**
   * Two names are one name exactly when they have the same length and agree
   * character by character once capitals are folded.
   */
  lemma SameNameIff(a: string, b: string)
    ensures SameName(a, b) <==> |a| == |b| && forall i | 0 <= i < |a| :: FoldChar(a[i]) == FoldChar(b[i])
  {
    NameKeyFolds(a);
    NameKeyFolds(b);
    if |a| == |b| && forall i | 0 <= i < |a| :: FoldChar(a[i]) == FoldChar(b[i]) {
      assert forall i | 0 <= i < |a| :: NameKey(a)[i] == NameKey(b)[i];
    }
  }

  /** A key is its own key: keys are the canonical names of their class. */
  lemma NameKeyIsCanonical(s: string)
    ensures NameKey(NameKey(s)) == NameKey(s)
    ensures SameName(s, NameKey(s))
  {
    var k := NameKey(s);
    NameKeyFolds(s);
    NameKeyFolds(k);
    assert forall i | 0 <= i < |k| :: NameKey(k)[i] == k[i];
  }

  /** Case variants name the same layer, and a different spelling does not. */
  lemma CaseVariantsAreOneName()
    ensures SameName("Roads", "ROADS") && SameName("Roads", "roads")
    ensures !SameName("Roads", "Road") && !SameName("Roads", "Rails")
  {
    SameNameIff("Roads", "ROADS");
    SameNameIff("Roads", "roads");
    SameNameIff("Roads", "Rails");
  }

  /** `UE_KINDA_SMALL_NUMBER`, the default tolerance of `FLinearColor::Equals`. */
  const KindaSmallNumber: real := 0.0001

  /** `UE_SMALL_NUMBER`, the default tolerance of `FMath::IsNearlyEqual`. */
  const SmallNumber: real := 0.00000001

  function Abs(x: real): real
  {
    if x < 0.0 then -x else x
  }

  /** `FMath::IsNearlyEqual`: the difference is at most the tolerance. */
  predicate IsNearlyEqual(a: real, b: real, tolerance: real)
  {
    Abs(a - b) <= tolerance
  }

  /** `FLinearColor::Equals`: every channel differs by strictly less than the tolerance. */
  predicate ColorEquals(c: LinearColor, d: LinearColor, tolerance: real)
  {
    && Abs(c.r - d.r) < tolerance
    && Abs(c.g - d.g) < tolerance
    && Abs(c.b - d.b) < tolerance
    && Abs(c.a - d.a) < tolerance
  }

  /** `FMath::Clamp(x, lo, hi)`. */
  function Clamp(x: int, lo: int, hi: int): (r: int)
    ensures lo <= hi ==> lo <= r <= hi
    ensures lo <= x <= hi ==> r == x
  {
    if x < lo then lo else if x < hi then x else hi
  }
}
