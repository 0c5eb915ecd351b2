/**
 * The value types of src/types.rs that carry behaviour: the status and
 * distance enums with their defaults, the service error body, and
 * `Vector::validate`.
 *
 * An `f32` is reduced to what `validate` asks of it: finite, infinite or NaN.
 * Metadata is given as its JSON serialization, whose length is what the size
 * limit counts.
 */
module Types {
  import opened Wrappers
  import opened Text

  /** `BucketStatus` and `IndexStatus` have the same four states. */
  datatype Status = Creating | Active | Deleting | Failed
  type BucketStatus = Status
  type IndexStatus = Status

  datatype DataType = Float32
  datatype DistanceMetric = Cosine | Euclidean

  function DefaultDataType(): (d: DataType)
    ensures d == Float32
  {
    Float32
  }

  function DefaultDistanceMetric(): (m: DistanceMetric)
    ensures m == Cosine
  {
    Cosine
  }

  /** `default_true`, the serde default of boolean flags. */
  function DefaultTrue(): (b: bool)
    ensures b
  {
    true
  }

  /** The JSON error body the service returns: `__type`, `message` and an optional request id. */
  datatype ServiceErrorBody = ServiceErrorBody(errorType: Option<string>, message: string, requestId: Option<string>)

  /** An `f32` as far as `is_nan` and `is_infinite` can tell. */
  datatype F32 = Finite(value: real) | Infinite(negative: bool) | NaN

  datatype Vector = Vector(key: string, float32: seq<F32>, metadataJson: Option<seq<byte>>)

  const MaxMetadataBytes := 40960

  datatype VectorError =
    | DimensionMismatch(expected: nat, got: nat)
    | NanAt(index: nat)
    | InfiniteAt(index: nat)
    | MetadataTooLarge(size: nat)

  /** The index of the first element at or after `from` that is not finite. */
  function FirstNonFinite(data: seq<F32>, from: nat): (r: Option<nat>)
    requires from <= |data|
    ensures r.Some? ==> from <= r.value < |data| && !data[r.value].Finite?
    ensures forall i | from <= i < |data| && (r.None? || i < r.value) :: data[i].Finite?
    decreases |data| - from
  {
    if from == |data| then None
    else if !data[from].Finite? then Some(from)
    else FirstNonFinite(data, from + 1)
  }

  /** `Vector::validate`: dimension first, then the first NaN or infinity, then the metadata size. */
  function Validate(v: Vector, expectedDimensions: nat): (r: Result<(), VectorError>)
    ensures r.Success? <==>
      && |v.float32| == expectedDimensions
      && (forall i | 0 <= i < |v.float32| :: v.float32[i].Finite?)
      && (v.metadataJson.None? || |v.metadataJson.value| <= MaxMetadataBytes)
    ensures |v.float32| != expectedDimensions ==> r == Failure(DimensionMismatch(expectedDimensions, |v.float32|))
    ensures r.Failure? && (r.error.NanAt? || r.error.InfiniteAt?) ==>
      var i := r.error.index;
      && |v.float32| == expectedDimensions
      && i < |v.float32|
      && (r.error.NanAt? <==> v.float32[i].NaN?)
      && (forall j | 0 <= j < i :: v.float32[j].Finite?)
    ensures r.Failure? && r.error.MetadataTooLarge? ==>
      && (forall i | 0 <= i < |v.float32| :: v.float32[i].Finite?)
      && v.metadataJson.Some? && r.error.size == |v.metadataJson.value| > MaxMetadataBytes
  {
    if |v.float32| != expectedDimensions then Failure(DimensionMismatch(expectedDimensions, |v.float32|))
    else match FirstNonFinite(v.float32, 0)
      case Some(i) => if v.float32[i].NaN? then Failure(NanAt(i)) else Failure(InfiniteAt(i))
      case None =>
        if v.metadataJson.Some? && |v.metadataJson.value| > MaxMetadataBytes then
          Failure(MetadataTooLarge(|v.metadataJson.value|))
        else Success(())
  }
}
