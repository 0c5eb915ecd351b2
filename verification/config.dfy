/**
 * src/config.rs: the configuration read from the environment, its redacting
 * `Debug` output, `has_credentials`, and the fallback `get_config` uses when
 * the environment cannot be read.
 */
module Configuration {
  import opened Wrappers
  import Validators

  datatype Config = Config(
    awsRegion: string,
    awsAccessKeyId: Option<string>,
    awsSecretAccessKey: Option<string>,
    awsSessionToken: Option<string>)

  const Redacted := "***REDACTED***"

  /** `default_region`: a region the service supports. */
  function DefaultRegion(): (r: string)
    ensures Validators.ValidateRegion(r).Success?
    ensures r == "us-east-1"
  {
    "us-east-1"
  }

  /** `has_credentials`: both the key id and the secret are present; the session token does not matter. */
  predicate HasCredentials(c: Config) {
    c.awsAccessKeyId.Some? && c.awsSecretAccessKey.Some?
  }

  /** `get_config`: the loaded configuration, or the default region with no credentials when loading failed. */
  function GetConfig(loaded: Result<Config, string>): (c: Config)
    ensures loaded.Success? ==> c == loaded.value
    ensures loaded.Failure? ==>
      c.awsRegion == DefaultRegion() && c.awsAccessKeyId.None? && c.awsSecretAccessKey.None? && c.awsSessionToken.None?
    ensures loaded.Failure? ==> !HasCredentials(c)
  {
    match loaded
    case Success(config) => config
    case Failure(_) => Config(DefaultRegion(), None, None, None)
  }

  /** `{:?}` of a `String`: the text in double quotes. */
  function DebugString(s: string): string {
    "\"" + s + "\""
  }

  /** `{:?}` of an `Option<&str>` holding the redaction marker in place of the value. */
  function RedactedField(field: Option<string>): (r: string)
    ensures field.None? ==> r == "None"
    ensures field.Some? ==> r == "Some(" + DebugString(Redacted) + ")"
  {
    match field
    case None => "None"
    case Some(_) => "Some(" + DebugString(Redacted) + ")"
  }

  /** The `Debug` output of a `Config`: the region verbatim, each credential only as present or absent. */
  function DebugFormat(c: Config): string {
    "Config { aws_region: " + DebugString(c.awsRegion)
    + ", aws_access_key_id: " + RedactedField(c.awsAccessKeyId)
    + ", aws_secret_access_key: " + RedactedField(c.awsSecretAccessKey)
    + ", aws_session_token: " + RedactedField(c.awsSessionToken)
    + " }"
  }

  /**
   * Non-interference: two configurations with the same region and the same
   * credential fields present print identically, whatever the credential values.
   */
  lemma DebugHidesCredentials(a: Config, b: Config)
    requires a.awsRegion == b.awsRegion
    requires a.awsAccessKeyId.Some? == b.awsAccessKeyId.Some?
    requires a.awsSecretAccessKey.Some? == b.awsSecretAccessKey.Some?
    requires a.awsSessionToken.Some? == b.awsSessionToken.Some?
    ensures DebugFormat(a) == DebugFormat(b)
  {
  }

  /** The output starts with the region, quoted, so the region is always shown. */
  lemma DebugShowsRegion(c: Config)
    ensures DebugFormat(c)[..|"Config { aws_region: "| + |c.awsRegion| + 2] == "Config { aws_region: " + DebugString(c.awsRegion)
  {
  }
}
