/**
 * src/lib.rs: the `S3VectorsClient` record and its constructors, and the
 * parser of the `~/.aws/credentials` INI file.
 *
 * The environment is the outcome of loading it (`Config.GetConfig` turns a
 * failure into the defaults); the credentials file is its text, or `None` when
 * it does not exist.
 */
module Client {
  import opened Wrappers
  import opened Text
  import opened Auth
  import opened Configuration

  datatype S3VectorsClient = S3VectorsClient(endpoint: string, region: string, signer: Option<AwsV4Signer>)

  function Endpoint(region: string): string {
    "https://s3vectors." + region + ".api.aws"
  }

  /** Every constructor keeps this: the endpoint is the region's, and a signer signs for the same region. */
  predicate Consistent(c: S3VectorsClient) {
    c.endpoint == Endpoint(c.region) && (c.signer.Some? ==> c.signer.value.region == c.region)
  }

  /** `S3VectorsClient::new`: no credentials. */
  function New(region: string): (c: S3VectorsClient)
    ensures Consistent(c) && c.region == region && c.signer.None?
  {
    S3VectorsClient(Endpoint(region), region, None)
  }

  /** `S3VectorsClient::with_credentials`: always a signer, holding exactly the given credentials. */
  function WithCredentials(region: string, accessKeyId: string, secretAccessKey: string, sessionToken: Option<string>): (c: S3VectorsClient)
    ensures Consistent(c) && c.region == region
    ensures c.signer == Some(AwsV4Signer(accessKeyId, secretAccessKey, sessionToken, region))
  {
    S3VectorsClient(Endpoint(region), region, Some(AwsV4Signer(accessKeyId, secretAccessKey, sessionToken, region)))
  }

  /** The signer `from_env` and `from_env_with_region` build, present exactly when the configuration has credentials. */
  function SignerFromConfig(config: Config, region: string): (s: Option<AwsV4Signer>)
    ensures s.Some? <==> HasCredentials(config)
    ensures s.Some? ==> s.value == AwsV4Signer(config.awsAccessKeyId.value, config.awsSecretAccessKey.value, config.awsSessionToken, region)
  {
    if HasCredentials(config) then
      Some(AwsV4Signer(config.awsAccessKeyId.value, config.awsSecretAccessKey.value, config.awsSessionToken, region))
    else None
  }

  /**
   * `S3VectorsClient::from_env`. The code's "not set" errors sit behind
   * `has_credentials`, so they are never returned.
   */
  function FromEnv(env: Result<Config, string>): (r: Result<S3VectorsClient, string>)
    ensures r.Success?
    ensures Consistent(r.value) && r.value.region == GetConfig(env).awsRegion
    ensures r.value.signer.Some? <==> HasCredentials(GetConfig(env))
    ensures r.value.signer.Some? ==>
      r.value.signer.value == AwsV4Signer(GetConfig(env).awsAccessKeyId.value, GetConfig(env).awsSecretAccessKey.value, GetConfig(env).awsSessionToken, r.value.region)
  {
    var config := GetConfig(env);
    Success(S3VectorsClient(Endpoint(config.awsRegion), config.awsRegion, SignerFromConfig(config, config.awsRegion)))
  }

  /** `S3VectorsClient::from_env_with_region`: the override region wins over the configured one. */
  function FromEnvWithRegion(env: Result<Config, string>, overrideRegion: Option<string>): (r: Result<S3VectorsClient, string>)
    ensures r.Success? && Consistent(r.value)
    ensures overrideRegion.Some? ==> r.value.region == overrideRegion.value
    ensures overrideRegion.None? ==> r.value.region == GetConfig(env).awsRegion
    ensures r.value.signer.Some? <==> HasCredentials(GetConfig(env))
    ensures r.value.signer.Some? ==>
      r.value.signer.value == AwsV4Signer(GetConfig(env).awsAccessKeyId.value, GetConfig(env).awsSecretAccessKey.value, GetConfig(env).awsSessionToken, r.value.region)
  {
    var config := GetConfig(env);
    var region := if overrideRegion.Some? then overrideRegion.value else config.awsRegion;
    Success(S3VectorsClient(Endpoint(region), region, SignerFromConfig(config, region)))
  }

  /** Without an override, `from_env_with_region` is `from_env`. */
  lemma FromEnvWithoutOverride(env: Result<Config, string>)
    ensures FromEnvWithRegion(env, None) == FromEnv(env)
  {
  }

  // ---------------------------------------------------------------------
  // The credentials file

  datatype AwsCredentials = AwsCredentials(accessKeyId: string, secretAccessKey: string, sessionToken: Option<string>)

  /** The parser's state: the section in effect and the entries recorded for the wanted profile. */
  datatype ParserState = ParserState(currentProfile: Option<string>, credentials: map<string, string>)

  /** A trimmed line that is a section header `[name]`. */
  predicate IsHeader(line: string) {
    StartsWith(line, "[") && EndsWith(line, "]")
  }

  function HeaderName(line: string): string
    requires IsHeader(line)
  {
    assert line[0] == '[' by { assert line[..1][0] == line[0]; }
    assert line[|line| - 1] == ']' by { assert line[|line| - 1..][0] == line[|line| - 1]; }
    line[1..|line| - 1]
  }

  /** A trimmed line the parser ignores outright: blank or a '#' comment. */
  predicate IsSkipped(line: string) {
    line == [] || StartsWith(line, "#")
  }

  /** What one raw line does to the parser state. */
  function Step(st: ParserState, rawLine: string, profileName: string): ParserState {
    var line := Trim(rawLine);
    if IsSkipped(line) then st
    else if IsHeader(line) then st.(currentProfile := Some(HeaderName(line)))
    else if st.currentProfile.Some? && st.currentProfile.value == profileName && SplitOnce(line, '=').Some? then
      var (key, value) := SplitOnce(line, '=').value;
      st.(credentials := st.credentials[Trim(key) := Trim(value)])
    else st
  }

  /** The state after the given lines, from no section and no entries. */
  function Scan(lines: seq<string>, profileName: string): ParserState {
    if lines == [] then ParserState(None, map[])
    else Step(Scan(lines[..|lines| - 1], profileName), lines[|lines| - 1], profileName)
  }

  /** The section named by the last header line among `lines`, if there is one. */
  function LastHeader(lines: seq<string>): Option<string> {
    if lines == [] then None
    else if IsHeader(Trim(lines[|lines| - 1])) then Some(HeaderName(Trim(lines[|lines| - 1])))
    else LastHeader(lines[..|lines| - 1])
  }

  /** Line `i` is a `key = value` line for `key` inside a section of the wanted profile. */
  predicate AssignsAt(lines: seq<string>, profileName: string, i: nat, key: string)
    requires i < |lines|
  {
    LastHeader(lines[..i]) == Some(profileName) && IsAssignmentOf(Trim(lines[i]), key)
  }

  /** A trimmed line that is neither skipped nor a header and, split at its first '=', names `key`. */
  predicate IsAssignmentOf(line: string, key: string) {
    && !IsSkipped(line) && !IsHeader(line)
    && SplitOnce(line, '=').Some?
    && Trim(SplitOnce(line, '=').value.0) == key
  }

  /** The trimmed text after the first '=' of line `i`. */
  function AssignedValue(lines: seq<string>, i: nat): string
    requires i < |lines| && SplitOnce(Trim(lines[i]), '=').Some?
  {
    Trim(SplitOnce(Trim(lines[i]), '=').value.1)
  }

  /** The section in effect after the parser has read `lines` is the last header's. */
  lemma {:induction false} ScanSection(lines: seq<string>, profileName: string)
    ensures Scan(lines, profileName).currentProfile == LastHeader(lines)
    decreases |lines|
  {
    if lines != [] {
      ScanSection(lines[..|lines| - 1], profileName);
    }
  }

  lemma AssignsAtPrefix(lines: seq<string>, n: nat, profileName: string, i: nat, key: string)
    requires i < n <= |lines|
    ensures AssignsAt(lines, profileName, i, key) <==> AssignsAt(lines[..n], profileName, i, key)
  {
    assert lines[..n][..i] == lines[..i];
  }

  /**
   * A key is recorded exactly when some line of the wanted profile's sections
   * assigns it, and its value is the one the last such line gives: key=value
   * lines outside any section or in other profiles' sections count for nothing,
   * repeated sections of the profile merge, and later lines overwrite earlier ones.
   */
  lemma {:induction false} ScanCredentials(lines: seq<string>, profileName: string, key: string)
    ensures var creds := Scan(lines, profileName).credentials;
      key in creds <==> exists i | 0 <= i < |lines| :: AssignsAt(lines, profileName, i, key)
    ensures var creds := Scan(lines, profileName).credentials;
      key in creds ==> exists i | 0 <= i < |lines| ::
        && AssignsAt(lines, profileName, i, key)
        && creds[key] == AssignedValue(lines, i)
        && forall j | i < j < |lines| :: !AssignsAt(lines, profileName, j, key)
    decreases |lines|
  {
    if lines != [] {
      var n := |lines| - 1;
      var init := lines[..n];
      ScanCredentials(init, profileName, key);
      LastLineEffect(lines, profileName, key);
      var before := Scan(init, profileName).credentials;
      var creds := Scan(lines, profileName).credentials;
      if AssignsAt(lines, profileName, n, key) {
        assert key in creds && creds[key] == AssignedValue(lines, n);
      } else if key in creds {
        var i :| 0 <= i < n && AssignsAt(init, profileName, i, key) && before[key] == AssignedValue(init, i)
          && forall j | i < j < n :: !AssignsAt(init, profileName, j, key);
        AssignsAtPrefix(lines, n, profileName, i, key);
        assert AssignedValue(init, i) == AssignedValue(lines, i);
        forall j | i < j < |lines| ensures !AssignsAt(lines, profileName, j, key) {
          if j < n {
            assert !AssignsAt(init, profileName, j, key);
            AssignsAtPrefix(lines, n, profileName, j, key);
          } else {
            assert j == n;
          }
        }
        assert 0 <= i < |lines| && AssignsAt(lines, profileName, i, key) && creds[key] == AssignedValue(lines, i)
          && forall j | i < j < |lines| :: !AssignsAt(lines, profileName, j, key);
      } else {
        assert key !in before;
        forall i | 0 <= i < |lines| ensures !AssignsAt(lines, profileName, i, key) {
          if i < n {
            assert !AssignsAt(init, profileName, i, key);
            AssignsAtPrefix(lines, n, profileName, i, key);
          } else {
            assert i == n;
          }
        }
      }
    }
  }

  /** What the last line does to one key. */
  lemma LastLineEffect(lines: seq<string>, profileName: string, key: string)
    requires lines != []
    ensures var n := |lines| - 1;
      var before := Scan(lines[..n], profileName).credentials;
      var after := Scan(lines, profileName).credentials;
      && (AssignsAt(lines, profileName, n, key) ==> key in after && after[key] == AssignedValue(lines, n))
      && (!AssignsAt(lines, profileName, n, key) ==>
            (key in after <==> key in before) && (key in before ==> after[key] == before[key]))
  {
    var n := |lines| - 1;
    var init := lines[..n];
    ScanSection(init, profileName);
    var st := Scan(init, profileName);
    assert Scan(lines, profileName) == Step(st, lines[n], profileName);
    assert lines[..n] == init;
    var line := Trim(lines[n]);
    if !IsSkipped(line) && !IsHeader(line) && st.currentProfile == Some(profileName) && SplitOnce(line, '=').Some? {
      var (k, v) := SplitOnce(line, '=').value;
      assert Scan(lines, profileName).credentials == st.credentials[Trim(k) := Trim(v)];
    } else {
      assert Scan(lines, profileName).credentials == st.credentials;
    }
  }

  /** `parse_credentials_file`, over the file's lines. */
  method ParseCredentialsLines(lines: seq<string>, profileName: string) returns (r: Result<AwsCredentials, string>)
    ensures r == CredentialsFrom(Scan(lines, profileName).credentials, profileName)
  {
    var currentProfile: Option<string> := None;
    var credentials: map<string, string> := map[];
    for i := 0 to |lines|
      invariant Scan(lines[..i], profileName) == ParserState(currentProfile, credentials)
    {
      assert lines[..i + 1][..i] == lines[..i];
      assert Scan(lines[..i + 1], profileName) == Step(Scan(lines[..i], profileName), lines[i], profileName);
      var line := Trim(lines[i]);
      if line == [] || StartsWith(line, "#") {
        continue;
      }
      if StartsWith(line, "[") && EndsWith(line, "]") {
        currentProfile := Some(line[1..|line| - 1]);
      } else if currentProfile.Some? {
        var split := SplitOnce(line, '=');
        if split.Some? {
          var key := Trim(split.value.0);
          var value := Trim(split.value.1);
          if currentProfile.value == profileName {
            credentials := credentials[key := value];
          }
        }
      }
    }
    assert lines[..|lines|] == lines;
    r := CredentialsFrom(credentials, profileName);
  }

  /** The end of `parse_credentials_file`: both keys are required, the session token is optional. */
  function CredentialsFrom(credentials: map<string, string>, profileName: string): (r: Result<AwsCredentials, string>)
    ensures r.Success? <==> "aws_access_key_id" in credentials && "aws_secret_access_key" in credentials
    ensures r.Success? ==>
      && r.value.accessKeyId == credentials["aws_access_key_id"]
      && r.value.secretAccessKey == credentials["aws_secret_access_key"]
      && (r.value.sessionToken.Some? <==> "aws_session_token" in credentials)
      && (r.value.sessionToken.Some? ==> r.value.sessionToken.value == credentials["aws_session_token"])
  {
    if "aws_access_key_id" !in credentials then
      Failure("Profile '" + profileName + "' missing aws_access_key_id")
    else if "aws_secret_access_key" !in credentials then
      Failure("Profile '" + profileName + "' missing aws_secret_access_key")
    else
      var token := if "aws_session_token" in credentials then Some(credentials["aws_session_token"]) else None;
      Success(AwsCredentials(credentials["aws_access_key_id"], credentials["aws_secret_access_key"], token))
  }

  /** The file's text, read with `BufRead::lines`, then parsed. */
  method ParseCredentialsFile(content: string, profileName: string) returns (r: Result<AwsCredentials, string>)
    ensures r == CredentialsFrom(Scan(Lines(content), profileName).credentials, profileName)
  {
    r := ParseCredentialsLines(Lines(content), profileName);
  }

  /**
   * `S3VectorsClient::from_profile`: a missing file and a profile without both
   * keys are errors; otherwise the client carries the profile's credentials.
   */
  method FromProfile(credentialsFile: Option<string>, profileName: string, region: string) returns (r: Result<S3VectorsClient, string>)
    ensures credentialsFile.None? ==> r.Failure?
    ensures credentialsFile.Some? ==>
      var parsed := CredentialsFrom(Scan(Lines(credentialsFile.value), profileName).credentials, profileName);
      && (r.Success? <==> parsed.Success?)
      && (r.Success? ==> r.value == WithCredentials(region, parsed.value.accessKeyId, parsed.value.secretAccessKey, parsed.value.sessionToken))
  {
    if credentialsFile.None? {
      return Failure("AWS credentials file not found");
    }
    var creds := ParseCredentialsFile(credentialsFile.value, profileName);
    if creds.Failure? {
      return Failure("Failed to parse credentials for profile: " + profileName);
    }
    r := Success(WithCredentials(region, creds.value.accessKeyId, creds.value.secretAccessKey, creds.value.sessionToken));
  }
}
