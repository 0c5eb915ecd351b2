/**
 * The name and range checks of src/validation.rs. Each check returns the error
 * of the first rule the input breaks, in the order the code tests them.
 * Lengths are UTF-8 byte lengths, as `str::len` counts them.
 */
module Validators {
  import opened Wrappers
  import opened Text

  datatype ValidationError =
    | BucketLength
    | BucketCharset
    | BucketHyphen
    | BucketPunycodePrefix
    | BucketAliasSuffix
    | BucketConsecutivePeriods
    | IndexLength
    | IndexCharset
    | DimensionsRange
    | TopKRange
    | UnsupportedRegion

  const SupportedRegions: seq<string> := ["us-east-1", "us-west-2"]

  /** The message each error carries. */
  function Message(e: ValidationError): string {
    match e
    case BucketLength => "Bucket name must be between 3 and 63 characters long"
    case BucketCharset => "Bucket name can only contain lowercase letters, numbers, and hyphens"
    case BucketHyphen => "Bucket name cannot start or end with a hyphen"
    case BucketPunycodePrefix => "Bucket name cannot start with 'xn--'"
    case BucketAliasSuffix => "Bucket name cannot end with '-s3alias'"
    case BucketConsecutivePeriods => "Bucket name cannot contain consecutive periods"
    case IndexLength => "Index name must be between 1 and 255 characters"
    case IndexCharset => "Index name can only contain alphanumeric characters, hyphens, and underscores"
    case DimensionsRange => "Vector dimensions must be between 1 and 4096"
    case TopKRange => "Top-k must be between 1 and 30 (preview limitation)"
    case UnsupportedRegion =>
      "S3 Vectors preview is only available in: " + Join(SupportedRegions, ", ") + ". Please use one of these regions."
  }

  predicate IsBucketChar(c: char) {
    ('a' <= c <= 'z') || ('0' <= c <= '9') || c == '-'
  }

  /** `char::is_alphanumeric`, restricted to ASCII. */
  predicate IsAlphanumeric(c: char) {
    ('a' <= c <= 'z') || ('A' <= c <= 'Z') || ('0' <= c <= '9')
  }

  predicate IsIndexChar(c: char) {
    IsAlphanumeric(c) || c == '-' || c == '_'
  }

  /** The bucket naming rules stated on characters, with no reference to the order of the checks. */
  predicate ValidBucketName(name: string) {
    && 3 <= |name| <= 63
    && (forall i | 0 <= i < |name| :: IsBucketChar(name[i]))
    && name[0] != '-' && name[|name| - 1] != '-'
    && !StartsWith(name, "xn--")
    && !EndsWith(name, "-s3alias")
  }

  /** `validate_bucket_name`. */
  function ValidateBucketName(name: string): (r: Result<(), ValidationError>)
    ensures r.Success? <==> ValidBucketName(name)
    ensures r == Failure(BucketLength) <==> !(3 <= ByteLen(name) <= 63)
    ensures r == Failure(BucketCharset) ==> exists i | 0 <= i < |name| :: !IsBucketChar(name[i])
    ensures r != Failure(BucketConsecutivePeriods)
  {
    BucketCharsAreAscii(name);
    if ByteLen(name) < 3 || ByteLen(name) > 63 then Failure(BucketLength)
    else if !(forall i | 0 <= i < |name| :: IsBucketChar(name[i])) then Failure(BucketCharset)
    else if StartsWith(name, "-") || EndsWith(name, "-") then Failure(BucketHyphen)
    else if StartsWith(name, "xn--") then Failure(BucketPunycodePrefix)
    else if EndsWith(name, "-s3alias") then Failure(BucketAliasSuffix)
    else
      ConsecutivePeriodsUnreachable(name);
      if Contains(name, "..") then Failure(BucketConsecutivePeriods)
      else Success(())
  }

  /** A name of bucket characters has one byte per character. */
  lemma BucketCharsAreAscii(name: string)
    ensures (forall i | 0 <= i < |name| :: IsBucketChar(name[i])) ==> ByteLen(name) == |name|
  {
    if forall i | 0 <= i < |name| :: IsBucketChar(name[i]) {
      ByteLenAscii(name);
    }
  }

  /** A name of index characters has one byte per character. */
  lemma IndexCharsAreAscii(name: string)
    ensures (forall i | 0 <= i < |name| :: IsIndexChar(name[i])) ==> ByteLen(name) == |name|
  {
    if forall i | 0 <= i < |name| :: IsIndexChar(name[i]) {
      ByteLenAscii(name);
    }
  }

  /** Once the character rule holds there is no '.', so the consecutive-period rule can never reject. */
  lemma ConsecutivePeriodsUnreachable(name: string)
    requires forall i | 0 <= i < |name| :: IsBucketChar(name[i])
    ensures !Contains(name, "..")
  {
    forall i: nat ensures !OccursAt(name, "..", i) {
      if i + 2 <= |name| {
        assert name[i..i + 2][0] == name[i];
      }
    }
  }

  /** A valid bucket name is also 3 to 63 bytes long, which is what the first check counts. */
  lemma ValidBucketNameBytes(name: string)
    requires ValidBucketName(name)
    ensures 3 <= ByteLen(name) <= 63 && !Contains(name, ".")
  {
    BucketCharsAreAscii(name);
    forall i: nat ensures !OccursAt(name, ".", i) {
      if i + 1 <= |name| {
        assert name[i..i + 1][0] == name[i];
      }
    }
  }

  /** `validate_index_name`. */
  function ValidateIndexName(name: string): (r: Result<(), ValidationError>)
    ensures r.Success? <==> 1 <= |name| <= 255 && forall i | 0 <= i < |name| :: IsIndexChar(name[i])
    ensures r == Failure(IndexLength) <==> !(1 <= ByteLen(name) <= 255)
    ensures r == Failure(IndexCharset) <==> 1 <= ByteLen(name) <= 255 && exists i | 0 <= i < |name| :: !IsIndexChar(name[i])
  {
    IndexCharsAreAscii(name);
    if ByteLen(name) == 0 || ByteLen(name) > 255 then Failure(IndexLength)
    else if !(forall i | 0 <= i < |name| :: IsIndexChar(name[i])) then Failure(IndexCharset)
    else Success(())
  }

  /** `validate_dimensions`. */
  function ValidateDimensions(dimensions: nat): (r: Result<(), ValidationError>)
    ensures r.Success? <==> 1 <= dimensions <= 4096
    ensures r.Failure? ==> r.error == DimensionsRange
  {
    if dimensions == 0 || dimensions > 4096 then Failure(DimensionsRange) else Success(())
  }

  /** `validate_top_k`. */
  function ValidateTopK(topK: nat): (r: Result<(), ValidationError>)
    ensures r.Success? <==> 1 <= topK <= 30
    ensures r.Failure? ==> r.error == TopKRange
  {
    if topK == 0 || topK > 30 then Failure(TopKRange) else Success(())
  }

  /** `validate_region`. */
  function ValidateRegion(region: string): (r: Result<(), ValidationError>)
    ensures r.Success? <==> region == "us-east-1" || region == "us-west-2"
    ensures r.Failure? ==> r.error == UnsupportedRegion
  {
    if region !in SupportedRegions then Failure(UnsupportedRegion) else Success(())
  }

  /** The accepted bucket names of src/validation.rs's tests. */
  lemma BucketNamesAccepted()
    ensures ValidateBucketName("my-vector-bucket").Success?
    ensures ValidateBucketName("123").Success?
  {
    var good := "my-vector-bucket";
    assert !StartsWith(good, "xn--") by { assert good[0] != "xn--"[0]; }
    assert !EndsWith(good, "-s3alias") by { assert good[|good| - 8] != "-s3alias"[0]; }
    assert ValidBucketName(good);
    var digits := "123";
    assert !StartsWith(digits, "xn--") && !EndsWith(digits, "-s3alias");
    assert ValidBucketName(digits);
  }

  /** The rejected bucket names of src/validation.rs's tests. */
  lemma BucketNamesRejected()
    ensures ValidateBucketName("ab").Failure?
    ensures ValidateBucketName(seq(64, _ => 'a')).Failure?
    ensures ValidateBucketName("My-Bucket").Failure?
    ensures ValidateBucketName("-bucket").Failure?
    ensures ValidateBucketName("bucket-").Failure?
    ensures ValidateBucketName("bucket..name").Failure?
  {
    assert !IsBucketChar("My-Bucket"[0]);
    assert !IsBucketChar("bucket..name"[6]);
  }

  /** The accepted index names of src/validation.rs's tests. */
  lemma IndexNamesAccepted()
    ensures ValidateIndexName("my_index_123").Success?
    ensures ValidateIndexName("index-name").Success?
  {
    var a, b := "my_index_123", "index-name";
    assert 1 <= |a| <= 255 && forall i | 0 <= i < |a| :: IsIndexChar(a[i]);
    assert 1 <= |b| <= 255 && forall i | 0 <= i < |b| :: IsIndexChar(b[i]);
  }

  /** The rejected index names of src/validation.rs's tests. */
  lemma IndexNamesRejected()
    ensures ValidateIndexName("").Failure?
    ensures ValidateIndexName(seq(256, _ => 'a')).Failure?
    ensures ValidateIndexName("index name").Failure?
  {
    assert !IsIndexChar("index name"[5]);
  }
}
