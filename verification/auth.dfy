/**
 * AWS Signature Version 4 as `AwsV4Signer` (src/auth.rs) computes it for the
 * "s3vectors" service.
 *
 * SHA-256, HMAC-SHA256 and URL parsing are foreign calls: they are fields of
 * `Primitives` and nothing is assumed about them. The clock is replaced by the
 * two stamps the signer formats from it. Like the code, the model trims header
 * values without collapsing inner white space, does not URI-encode the path and
 * always signs an empty query string.
 */
module Auth {
  import opened Wrappers
  import opened Text
  import LexOrder

  const Algorithm := "AWS4-HMAC-SHA256"
  const Service := "s3vectors"
  const Terminator := "aws4_request"
  /** The byte-string literals the key derivation uses for the service and the terminator. */
  const ServiceBytes: seq<byte> := [0x73, 0x33, 0x76, 0x65, 0x63, 0x74, 0x6f, 0x72, 0x73]
  const TerminatorBytes: seq<byte> := [0x61, 0x77, 0x73, 0x34, 0x5f, 0x72, 0x65, 0x71, 0x75, 0x65, 0x73, 0x74]

  /** The headers `sign_request` adds itself. */
  const HostName := "host"
  const DateName := "x-amz-date"
  const TokenName := "x-amz-security-token"
  const ContentHashName := "x-amz-content-sha256"
  const AuthorizationName := "authorization"

  datatype AwsV4Signer = AwsV4Signer(
    accessKeyId: string,
    secretAccessKey: string,
    sessionToken: Option<string>,
    region: string)

  /** What `url::Url` reports about a parsed URL: its host, a port only when it is not the scheme's default, and its path. */
  datatype Url = Url(host: Option<string>, port: Option<nat>, path: string)

  /** The foreign primitives: SHA-256, HMAC-SHA256 (key, message) and `Url::parse` (None on a parse error). */
  datatype Primitives = Primitives(
    sha256: seq<byte> -> seq<byte>,
    hmacSha256: (seq<byte>, seq<byte>) -> seq<byte>,
    parseUrl: string -> Option<Url>)

  /** The date stamp (`%Y%m%d`) and the time stamp (`%Y%m%dT%H%M%SZ`) of the signing instant. */
  datatype Stamp = Stamp(date: string, time: string)

  datatype SignError = UrlParseFailed | NoHost

  /** The `host` header: the host, with `:port` only when the URL names a port. */
  function HostHeader(u: Url): (r: Result<string, SignError>)
    ensures r.Failure? <==> u.host.None?
    ensures r.Failure? ==> r.error == NoHost
    ensures r.Success? && u.port.None? ==> r.value == u.host.value
    ensures r.Success? && u.port.Some? ==> r.value == u.host.value + ":" + NatToString(u.port.value)
  {
    match u.port
    case Some(port) =>
      if u.host.None? then Failure(NoHost) else Success(u.host.value + ":" + NatToString(port))
    case None =>
      if u.host.None? then Failure(NoHost) else Success(u.host.value)
  }

  /** One line of the canonical header block: lower-cased name, ':', trimmed value. */
  function CanonicalLine(name: string, value: string): string {
    ToLower(name) + ":" + Trim(value)
  }

  /** One entry of the signed-headers list: the lower-cased name. */
  function SignedName(name: string, value: string): string {
    ToLower(name)
  }

  /**
   * `f` applied to the entries of `m` whose keys are in `keys`, in some order
   * of those keys. A `HashMap` gives no order; every statement about it below
   * holds for any choice.
   */
  ghost function EnumerateKeys(keys: set<string>, m: map<string, string>, f: (string, string) -> string): (r: seq<string>)
    requires keys <= m.Keys
    ensures |r| == |keys|
  {
    if keys == {} then []
    else
      var k :| k in keys;
      [f(k, m[k])] + EnumerateKeys(keys - {k}, m, f)
  }

  /** `f` applied to every entry of `m`, in some order. */
  ghost function Enumerate(m: map<string, string>, f: (string, string) -> string): (r: seq<string>)
    ensures |r| == |m|
  {
    EnumerateKeys(m.Keys, m, f)
  }

  /** The key `EnumerateKeys` visits first. */
  lemma EnumerateHead(keys: set<string>, m: map<string, string>, f: (string, string) -> string) returns (j: string)
    requires keys <= m.Keys && keys != {}
    ensures j in keys && EnumerateKeys(keys, m, f) == [f(j, m[j])] + EnumerateKeys(keys - {j}, m, f)
  {
    j :| j in keys && EnumerateKeys(keys, m, f) == [f(j, m[j])] + EnumerateKeys(keys - {j}, m, f);
  }

  /** Any key can be taken out first without changing which entries come out. */
  lemma {:induction false} EnumerateRemove(keys: set<string>, m: map<string, string>, f: (string, string) -> string, k: string)
    requires keys <= m.Keys && k in keys
    ensures multiset(EnumerateKeys(keys, m, f)) == multiset{f(k, m[k])} + multiset(EnumerateKeys(keys - {k}, m, f))
    decreases keys
  {
    var j := EnumerateHead(keys, m, f);
    if j != k {
      var rest := keys - {j} - {k};
      assert keys - {k} - {j} == rest;
      EnumerateRemove(keys - {j}, m, f, k);
      EnumerateRemove(keys - {k}, m, f, j);
      calc {
        multiset(EnumerateKeys(keys, m, f));
        multiset{f(j, m[j])} + multiset(EnumerateKeys(keys - {j}, m, f));
        multiset{f(j, m[j])} + (multiset{f(k, m[k])} + multiset(EnumerateKeys(rest, m, f)));
        multiset{f(k, m[k])} + (multiset{f(j, m[j])} + multiset(EnumerateKeys(rest, m, f)));
        multiset{f(k, m[k])} + multiset(EnumerateKeys(keys - {k}, m, f));
      }
    }
  }

  lemma {:induction false} EnumerateElements(keys: set<string>, m: map<string, string>, f: (string, string) -> string, i: nat)
    requires keys <= m.Keys && i < |keys|
    ensures exists k :: k in keys && EnumerateKeys(keys, m, f)[i] == f(k, m[k])
    decreases keys
  {
    var j := EnumerateHead(keys, m, f);
    if i > 0 {
      EnumerateElements(keys - {j}, m, f, i - 1);
      var k :| k in keys - {j} && EnumerateKeys(keys - {j}, m, f)[i - 1] == f(k, m[k]);
      assert EnumerateKeys(keys, m, f)[i] == f(k, m[k]);
    }
  }

  /** The values `f(k, m[k])` for the keys in the order `keys`. */
  function Image(keys: seq<string>, m: map<string, string>, f: (string, string) -> string): (r: seq<string>)
    requires forall k | k in keys :: k in m
    ensures |r| == |keys|
  {
    if keys == [] then [] else [f(keys[0], m[keys[0]])] + Image(keys[1..], m, f)
  }

  /** `keys` lists every element of `domain` exactly once: one possible iteration order. */
  predicate IsIterationOrder(keys: seq<string>, domain: set<string>) {
    && (forall k | k in keys :: k in domain)
    && (forall k | k in domain :: k in keys)
    && (forall i, j :: 0 <= i < j < |keys| ==> keys[i] != keys[j])
  }

  /** Whatever order the map is iterated in, the same multiset of entries comes out. */
  lemma {:induction false} ImageMatchesEnumerate(keys: seq<string>, domain: set<string>, m: map<string, string>, f: (string, string) -> string)
    requires domain <= m.Keys && IsIterationOrder(keys, domain)
    ensures multiset(Image(keys, m, f)) == multiset(EnumerateKeys(domain, m, f))
    decreases |keys|
  {
    if keys == [] {
      assert domain == {};
    } else {
      var k := keys[0];
      forall x ensures x in keys[1..] <==> x in domain - {k} {
        if x in keys[1..] {
          var i :| 1 <= i < |keys| && keys[i] == x;
        }
        if x in keys && x != k {
          var i :| 0 <= i < |keys| && keys[i] == x;
          assert keys[1..][i - 1] == x;
        }
      }
      assert IsIterationOrder(keys[1..], domain - {k});
      ImageMatchesEnumerate(keys[1..], domain - {k}, m, f);
      EnumerateRemove(domain, m, f, k);
    }
  }

  /** The canonical header lines, sorted. */
  ghost function CanonicalLines(headers: map<string, string>): seq<string> {
    LexOrder.SortLex(Enumerate(headers, CanonicalLine))
  }

  /** The lower-cased header names, sorted. */
  ghost function SignedNames(headers: map<string, string>): seq<string> {
    LexOrder.SortLex(Enumerate(headers, SignedName))
  }

  /** The canonical header block: the sorted lines joined by "\n", plus a final "\n". */
  ghost function CanonicalBlock(headers: map<string, string>): string {
    Join(CanonicalLines(headers), "\n") + "\n"
  }

  /** The signed-headers string: the sorted lower-cased names joined by ";". */
  ghost function SignedHeaderList(headers: map<string, string>): string {
    Join(SignedNames(headers), ";")
  }

  ghost predicate FromEntry(m: map<string, string>, f: (string, string) -> string, x: string) {
    exists k :: k in m && x == f(k, m[k])
  }

  /** Every entry of `m` contributes its value, and every value comes from an entry. */
  lemma EnumerateContents(m: map<string, string>, f: (string, string) -> string)
    ensures forall k | k in m :: f(k, m[k]) in multiset(Enumerate(m, f))
    ensures forall x | x in Enumerate(m, f) :: FromEntry(m, f, x)
  {
    forall k | k in m ensures f(k, m[k]) in multiset(Enumerate(m, f)) {
      EnumerateRemove(m.Keys, m, f, k);
      assert multiset(Enumerate(m, f)) == multiset{f(k, m[k])} + multiset(EnumerateKeys(m.Keys - {k}, m, f));
    }
    forall x | x in Enumerate(m, f) ensures FromEntry(m, f, x) {
      var i :| 0 <= i < |Enumerate(m, f)| && Enumerate(m, f)[i] == x;
      EnumerateElements(m.Keys, m, f, i);
    }
  }

  /** `SortLex` of an enumeration holds exactly the values of the entries, one per entry, in order. */
  lemma SortedEnumeration(m: map<string, string>, f: (string, string) -> string)
    ensures var r := LexOrder.SortLex(Enumerate(m, f));
      && LexOrder.Sorted(r) && |r| == |m|
      && (forall k | k in m :: f(k, m[k]) in r)
      && (forall x | x in r :: exists k :: k in m && x == f(k, m[k]))
  {
    var e := Enumerate(m, f);
    var r := LexOrder.SortLex(e);
    EnumerateContents(m, f);
    forall k | k in m ensures f(k, m[k]) in r {
      assert f(k, m[k]) in multiset(r);
    }
    forall x | x in r ensures exists k :: k in m && x == f(k, m[k]) {
      assert x in multiset(e);
      assert FromEntry(m, f, x);
    }
  }

  /**
   * The canonical header lines: sorted, one per header, holding exactly the
   * lines `lowercase(name):trim(value)` of the headers.
   */
  lemma CanonicalLinesSpec(m: map<string, string>)
    ensures LexOrder.Sorted(CanonicalLines(m)) && |CanonicalLines(m)| == |m|
    ensures forall k | k in m :: ToLower(k) + ":" + Trim(m[k]) in CanonicalLines(m)
    ensures forall line | line in CanonicalLines(m) :: exists k :: k in m && line == ToLower(k) + ":" + Trim(m[k])
  {
    SortedEnumeration(m, CanonicalLine);
  }

  /** The signed names: sorted, one per header, the lower-cased header names and nothing else. */
  lemma SignedNamesSpec(m: map<string, string>)
    ensures LexOrder.Sorted(SignedNames(m)) && |SignedNames(m)| == |m|
    ensures forall k | k in m :: ToLower(k) in SignedNames(m)
    ensures forall name | name in SignedNames(m) :: exists k :: k in m && name == ToLower(k)
    ensures forall name | name in SignedNames(m) :: forall c | c in name :: !IsAsciiUpper(c)
  {
    SortedEnumeration(m, SignedName);
    var r := SignedNames(m);
    forall name | name in r ensures forall c | c in name :: !IsAsciiUpper(c) {
      var k :| k in m && name == SignedName(k, m[k]);
      ToLowerNoUpper(k);
    }
  }

  /**
   * The order a `HashMap` yields its entries in does not matter: sorting the
   * lines or names collected in any iteration order gives the same block and list.
   */
  lemma HeaderOrderIrrelevant(keys: seq<string>, m: map<string, string>)
    requires IsIterationOrder(keys, m.Keys)
    ensures Join(LexOrder.SortLex(Image(keys, m, CanonicalLine)), "\n") + "\n" == CanonicalBlock(m)
    ensures Join(LexOrder.SortLex(Image(keys, m, SignedName)), ";") == SignedHeaderList(m)
  {
    ImageMatchesEnumerate(keys, m.Keys, m, CanonicalLine);
    LexOrder.SortPermutationInvariant(Image(keys, m, CanonicalLine), Enumerate(m, CanonicalLine));
    ImageMatchesEnumerate(keys, m.Keys, m, SignedName);
    LexOrder.SortPermutationInvariant(Image(keys, m, SignedName), Enumerate(m, SignedName));
  }

  /**
   * The loop both canonicalisers share: visit the entries in whatever order the
   * map yields them, collect `f(name, value)`, then sort.
   */
  method CollectSorted(headers: map<string, string>, f: (string, string) -> string) returns (sorted: seq<string>)
    ensures sorted == LexOrder.SortLex(Enumerate(headers, f))
  {
    var collected: seq<string> := [];
    var unvisited := headers.Keys;
    while unvisited != {}
      invariant unvisited <= headers.Keys
      invariant multiset(collected) + multiset(EnumerateKeys(unvisited, headers, f)) == multiset(Enumerate(headers, f))
      decreases unvisited
    {
      var key :| key in unvisited;
      EnumerateRemove(unvisited, headers, f, key);
      collected := collected + [f(key, headers[key])];
      unvisited := unvisited - {key};
    }
    sorted := LexOrder.SortLex(collected);
    LexOrder.SortPermutationInvariant(collected, Enumerate(headers, f));
  }

  /** `create_canonical_headers_map`. */
  method CreateCanonicalHeaders(headers: map<string, string>) returns (block: string)
    ensures block == CanonicalBlock(headers)
  {
    var canonical := CollectSorted(headers, CanonicalLine);
    block := Join(canonical, "\n") + "\n";
  }

  /** `get_signed_headers_map`. */
  method GetSignedHeaders(headers: map<string, string>) returns (signed: string)
    ensures signed == SignedHeaderList(headers)
  {
    var names := CollectSorted(headers, SignedName);
    signed := Join(names, ";");
  }

  /**
   * The canonical request: six fields joined by "\n". The query string is always
   * empty, and the header block ends in its own "\n".
   */
  function CanonicalRequest(httpMethod: string, path: string, block: string, signed: string, payloadHash: string): string {
    Join([httpMethod, path, "", block, signed, payloadHash], "\n")
  }

  function CredentialScope(date: string, region: string): string {
    date + "/" + region + "/" + Service + "/" + Terminator
  }

  function StringToSign(time: string, scope: string, requestHash: string): string {
    Algorithm + "\n" + time + "\n" + scope + "\n" + requestHash
  }

  /** `calculate_signature`: the four-step HMAC key chain, then the HMAC of the string to sign, in hex. */
  function CalculateSignature(p: Primitives, signer: AwsV4Signer, date: string, stringToSign: string): string {
    var kSecret := Utf8("AWS4" + signer.secretAccessKey);
    var kDate := p.hmacSha256(kSecret, Utf8(date));
    var kRegion := p.hmacSha256(kDate, Utf8(signer.region));
    var kService := p.hmacSha256(kRegion, ServiceBytes);
    var kSigning := p.hmacSha256(kService, TerminatorBytes);
    HexEncode(p.hmacSha256(kSigning, Utf8(stringToSign)))
  }

  function AuthorizationHeader(accessKeyId: string, scope: string, signed: string, signature: string): string {
    var credential := "Credential=" + accessKeyId + "/" + scope + ",";
    var signedHeaders := "SignedHeaders=" + signed + ",";
    var signatureField := "Signature=" + signature;
    Algorithm + " " + credential + " " + signedHeaders + " " + signatureField
  }

  /** The credential scope splits on '/' into date, region, service and terminator. */
  lemma CredentialScopeComponents(date: string, region: string)
    requires '/' !in date && '/' !in region
    ensures Split(CredentialScope(date, region), '/') == [date, region, Service, Terminator]
  {
    var parts := [date, region, Service, Terminator];
    JoinFour(date, region, Service, Terminator, "/");
    SplitJoin(parts, '/');
  }

  lemma JoinFour(a: string, b: string, c: string, d: string, sep: string)
    ensures Join([a, b, c, d], sep) == a + sep + b + sep + c + sep + d
  {
    JoinCons(c, [d], sep);
    JoinCons(b, [c, d], sep);
    JoinCons(a, [b, c, d], sep);
  }

  /** HMAC key derivation: each component keys the next step, starting from `key`. */
  function DeriveKey(p: Primitives, key: seq<byte>, components: seq<string>): seq<byte>
    decreases |components|
  {
    if components == [] then key else DeriveKey(p, p.hmacSha256(key, Utf8(components[0])), components[1..])
  }

  /**
   * The signing key is derived from "AWS4" + secret through exactly the
   * components of the credential scope that the authorization header announces.
   */
  lemma SigningKeyFollowsScope(p: Primitives, signer: AwsV4Signer, date: string, stringToSign: string)
    requires '/' !in date && '/' !in signer.region
    ensures CalculateSignature(p, signer, date, stringToSign) ==
      HexEncode(p.hmacSha256(
        DeriveKey(p, Utf8("AWS4" + signer.secretAccessKey), Split(CredentialScope(date, signer.region), '/')),
        Utf8(stringToSign)))
  {
    CredentialScopeComponents(date, signer.region);
    ServiceLiteralBytes();
    TerminatorLiteralBytes();
    DeriveFour(p, Utf8("AWS4" + signer.secretAccessKey), date, signer.region, Service, Terminator);
  }

  /** `b"s3vectors"` is the UTF-8 encoding of the scope's service. */
  lemma ServiceLiteralBytes()
    ensures Utf8(Service) == ServiceBytes
  {
    AsciiBytes(Service, ServiceBytes);
  }

  /** `b"aws4_request"` is the UTF-8 encoding of the scope's terminator. */
  lemma TerminatorLiteralBytes()
    ensures Utf8(Terminator) == TerminatorBytes
  {
    AsciiBytes(Terminator, TerminatorBytes);
  }

  lemma DeriveFour(p: Primitives, key: seq<byte>, a: string, b: string, c: string, d: string)
    ensures DeriveKey(p, key, [a, b, c, d]) ==
      p.hmacSha256(p.hmacSha256(p.hmacSha256(p.hmacSha256(key, Utf8(a)), Utf8(b)), Utf8(c)), Utf8(d))
  {
    var k1 := p.hmacSha256(key, Utf8(a));
    var k2 := p.hmacSha256(k1, Utf8(b));
    var k3 := p.hmacSha256(k2, Utf8(c));
    var k4 := p.hmacSha256(k3, Utf8(d));
    assert DeriveKey(p, k4, []) == k4;
    assert DeriveKey(p, k3, [d]) == k4;
    assert [c, d][1..] == [d];
    assert DeriveKey(p, k2, [c, d]) == k4;
    assert [b, c, d][1..] == [c, d];
    assert DeriveKey(p, k1, [b, c, d]) == k4;
    assert [a, b, c, d][1..] == [b, c, d];
  }

  /** The string to sign has four lines: algorithm, time stamp, scope and request hash. */
  lemma StringToSignLines(time: string, scope: string, requestDigest: seq<byte>)
    requires '\n' !in time && '\n' !in scope
    ensures Split(StringToSign(time, scope, HexEncode(requestDigest)), '\n') == [Algorithm, time, scope, HexEncode(requestDigest)]
  {
    var parts := [Algorithm, time, scope, HexEncode(requestDigest)];
    assert '\n' !in HexEncode(requestDigest) by {
      assert !IsLowerHexDigit('\n');
    }
    JoinFour(Algorithm, time, scope, HexEncode(requestDigest), "\n");
    SplitJoin(parts, '\n');
  }

  /**
   * The authorization header splits on ' ' into the algorithm and the
   * credential, signed-headers and signature fields.
   */
  lemma AuthorizationHeaderFields(accessKeyId: string, scope: string, signed: string, digest: seq<byte>)
    requires ' ' !in accessKeyId && ' ' !in scope && ' ' !in signed
    ensures Split(AuthorizationHeader(accessKeyId, scope, signed, HexEncode(digest)), ' ') ==
      [Algorithm, "Credential=" + accessKeyId + "/" + scope + ",", "SignedHeaders=" + signed + ",", "Signature=" + HexEncode(digest)]
  {
    var parts := [Algorithm, "Credential=" + accessKeyId + "/" + scope + ",", "SignedHeaders=" + signed + ",", "Signature=" + HexEncode(digest)];
    assert ' ' !in HexEncode(digest) by {
      assert !IsLowerHexDigit(' ');
    }
    assert ' ' !in parts[1] && ' ' !in parts[2] && ' ' !in parts[3] by {
      assert ' ' !in "Credential=" && ' ' !in "/" && ' ' !in "," && ' ' !in "SignedHeaders=" && ' ' !in "Signature=";
    }
    JoinFour(parts[0], parts[1], parts[2], parts[3], " ");
    assert AuthorizationHeader(accessKeyId, scope, signed, HexEncode(digest)) == Join(parts, " ");
    SplitJoin(parts, ' ');
  }

  /** No header name or value holds a line break. */
  predicate SingleLineHeaders(m: map<string, string>) {
    forall k | k in m :: '\n' !in k && '\n' !in m[k]
  }

  /**
   * The canonical request splits on "\n" into the method, the path, the empty
   * query, one line per canonical header, an empty line, the signed-headers
   * list and the payload hash.
   */
  lemma CanonicalRequestLines(httpMethod: string, path: string, m: map<string, string>, payloadDigest: seq<byte>)
    requires '\n' !in httpMethod && '\n' !in path
    requires m != map[] && SingleLineHeaders(m)
    ensures Split(CanonicalRequest(httpMethod, path, CanonicalBlock(m), SignedHeaderList(m), HexEncode(payloadDigest)), '\n') ==
      [httpMethod, path, ""] + CanonicalLines(m) + ["", SignedHeaderList(m), HexEncode(payloadDigest)]
  {
    var lines := CanonicalLines(m);
    var signed := SignedHeaderList(m);
    var hash := HexEncode(payloadDigest);
    var parts := [httpMethod, path, ""] + lines + ["", signed, hash];
    CanonicalPiecesSingleLine(m);
    assert '\n' !in hash by {
      assert !IsLowerHexDigit('\n');
    }
    assert forall part | part in parts :: '\n' !in part by {
      forall part | part in parts ensures '\n' !in part {
        if part !in lines {
          assert part in [httpMethod, path, ""] || part in ["", signed, hash];
        }
      }
    }
    CanonicalRequestAsJoin(httpMethod, path, lines, signed, hash);
    SplitJoin(parts, '\n');
  }

  /** No canonical line and no signed-headers list holds a line break when no header does. */
  lemma CanonicalPiecesSingleLine(m: map<string, string>)
    requires SingleLineHeaders(m)
    ensures m != map[] ==> |CanonicalLines(m)| >= 1
    ensures forall line | line in CanonicalLines(m) :: '\n' !in line
    ensures '\n' !in SignedHeaderList(m)
  {
    assert forall line | line in CanonicalLines(m) :: '\n' !in line by {
      CanonicalLinesSpec(m);
      forall line | line in CanonicalLines(m) ensures '\n' !in line {
        var k :| k in m && line == ToLower(k) + ":" + Trim(m[k]);
        CanonicalLineSingle(k, m[k]);
      }
    }
    assert '\n' !in SignedHeaderList(m) by {
      SignedNamesSpec(m);
      forall name | name in SignedNames(m) ensures '\n' !in name {
        var k :| k in m && name == ToLower(k);
        ToLowerAvoids(k, '\n');
      }
      JoinAvoids(SignedNames(m), ";", '\n');
    }
  }

  lemma CanonicalLineSingle(name: string, value: string)
    requires '\n' !in name && '\n' !in value
    ensures '\n' !in CanonicalLine(name, value)
  {
    ToLowerAvoids(name, '\n');
    assert '\n' !in Trim(value);
  }

  /** The canonical request is the join, by "\n", of its leading fields, the header lines and its trailing fields. */
  lemma CanonicalRequestAsJoin(httpMethod: string, path: string, lines: seq<string>, signed: string, hash: string)
    requires |lines| >= 1
    ensures CanonicalRequest(httpMethod, path, Join(lines, "\n") + "\n", signed, hash) ==
      Join([httpMethod, path, ""] + lines + ["", signed, hash], "\n")
  {
    var head, tail := [httpMethod, path, ""], [signed, hash];
    var block := Join(lines, "\n") + "\n";
    JoinTerminated(lines, "\n");
    SixFields(httpMethod, path, "", block, signed, hash);
    JoinFlatten(head, lines + [""], tail, "\n");
    RegroupFields(head, lines, "", signed, hash);
  }

  lemma SixFields<T>(a: T, b: T, c: T, d: T, e: T, f: T)
    ensures [a, b, c, d, e, f] == [a, b, c] + [d] + [e, f]
  {
  }

  lemma RegroupFields<T>(head: seq<T>, lines: seq<T>, blank: T, e: T, f: T)
    ensures head + (lines + [blank]) + [e, f] == head + lines + [blank, e, f]
  {
  }

  function PayloadHash(p: Primitives, payload: seq<byte>): string {
    HexEncode(p.sha256(payload))
  }

  /** The caller's headers plus `host`, `x-amz-date`, the session token if any, and the payload hash. */
  function HeadersToSign(signer: AwsV4Signer, headers: map<string, string>, host: string, stamp: Stamp, payloadHash: string): map<string, string> {
    var withDate := headers[HostName := host][DateName := stamp.time];
    var withToken := if signer.sessionToken.Some? then withDate[TokenName := signer.sessionToken.value] else withDate;
    withToken[ContentHashName := payloadHash]
  }

  /** The header map `sign_request` returns for these inputs. */
  ghost function SignedRequestHeaders(
    p: Primitives, signer: AwsV4Signer, httpMethod: string, url: string,
    headers: map<string, string>, payload: seq<byte>, stamp: Stamp): Result<map<string, string>, SignError>
  {
    match p.parseUrl(url)
    case None => Failure(UrlParseFailed)
    case Some(u) =>
      match HostHeader(u)
      case Failure(e) => Failure(e)
      case Success(host) =>
        var payloadHash := PayloadHash(p, payload);
        var toSign := HeadersToSign(signer, headers, host, stamp, payloadHash);
        var signed := SignedHeaderList(toSign);
        var request := CanonicalRequest(httpMethod, u.path, CanonicalBlock(toSign), signed, payloadHash);
        var scope := CredentialScope(stamp.date, signer.region);
        var stringToSign := StringToSign(stamp.time, scope, HexEncode(p.sha256(Utf8(request))));
        var signature := CalculateSignature(p, signer, stamp.date, stringToSign);
        Success(toSign[AuthorizationName := AuthorizationHeader(signer.accessKeyId, scope, signed, signature)])
  }

  /** Signing fails exactly when the URL does not parse or has no host. */
  predicate SigningFails(p: Primitives, url: string) {
    p.parseUrl(url).None? || p.parseUrl(url).value.host.None?
  }

  /** The `host` header value signing uses for a URL that signs. */
  function SignedHost(p: Primitives, url: string): string
    requires !SigningFails(p, url)
  {
    HostHeader(p.parseUrl(url).value).value
  }

  /** What a successful signing adds, keeps and sets. */
  lemma SignedRequestHeadersShape(
    p: Primitives, signer: AwsV4Signer, httpMethod: string, url: string,
    headers: map<string, string>, payload: seq<byte>, stamp: Stamp)
    ensures SignedRequestHeaders(p, signer, httpMethod, url, headers, payload, stamp).Failure? <==> SigningFails(p, url)
    ensures SignedRequestHeaders(p, signer, httpMethod, url, headers, payload, stamp).Success? ==>
      && !SigningFails(p, url)
      && WellSigned(SignedRequestHeaders(p, signer, httpMethod, url, headers, payload, stamp).value,
                    p, signer, headers, SignedHost(p, url), payload, stamp)
  {
    var r := SignedRequestHeaders(p, signer, httpMethod, url, headers, payload, stamp);
    if !SigningFails(p, url) {
      var u := p.parseUrl(url).value;
      var host := HostHeader(u).value;
      var toSign := HeadersToSign(signer, headers, host, stamp, PayloadHash(p, payload));
      var auth :| r == Success(toSign[AuthorizationName := auth]);
      HeadersToSignShape(signer, headers, host, stamp, PayloadHash(p, payload), auth);
    }
  }

  lemma HeadersToSignShape(signer: AwsV4Signer, headers: map<string, string>, host: string, stamp: Stamp, payloadHash: string, auth: string)
    ensures var r := HeadersToSign(signer, headers, host, stamp, payloadHash)[AuthorizationName := auth];
      && {HostName, DateName, ContentHashName, AuthorizationName} <= r.Keys
      && (TokenName in r <==> signer.sessionToken.Some? || TokenName in headers)
      && r[HostName] == host
      && r[DateName] == stamp.time
      && r[ContentHashName] == payloadHash
      && (signer.sessionToken.Some? ==> r[TokenName] == signer.sessionToken.value)
      && (forall k | k in headers && k !in {HostName, DateName, TokenName, ContentHashName, AuthorizationName} ::
            k in r && r[k] == headers[k])
      && r.Keys <= headers.Keys + {HostName, DateName, TokenName, ContentHashName, AuthorizationName}
  {
  }

  /**
   * The `authorization` header of a signed map is the signature over the rest
   * of that map: taking it away leaves exactly the headers that were signed,
   * and the canonical request built from those (with the sent content hash as
   * the payload hash) gives back the signature the header carries.
   */
  lemma SignatureOverSentHeaders(
    p: Primitives, signer: AwsV4Signer, httpMethod: string, url: string,
    headers: map<string, string>, payload: seq<byte>, stamp: Stamp)
    requires AuthorizationName !in headers && !SigningFails(p, url)
    ensures SignedRequestHeaders(p, signer, httpMethod, url, headers, payload, stamp).Success?
    ensures var r := SignedRequestHeaders(p, signer, httpMethod, url, headers, payload, stamp).value;
      var u := p.parseUrl(url).value;
      var h := r - {AuthorizationName};
      var scope := CredentialScope(stamp.date, signer.region);
      && AuthorizationName in r && ContentHashName in h
      && r[AuthorizationName] == AuthorizationHeader(signer.accessKeyId, scope, SignedHeaderList(h),
           CalculateSignature(p, signer, stamp.date, StringToSign(stamp.time, scope,
             HexEncode(p.sha256(Utf8(CanonicalRequest(httpMethod, u.path, CanonicalBlock(h), SignedHeaderList(h), h[ContentHashName])))))))
  {
    var u := p.parseUrl(url).value;
    var payloadHash := PayloadHash(p, payload);
    var toSign := HeadersToSign(signer, headers, SignedHost(p, url), stamp, payloadHash);
    var scope := CredentialScope(stamp.date, signer.region);
    var signed := SignedHeaderList(toSign);
    var signature := CalculateSignature(p, signer, stamp.date, StringToSign(stamp.time, scope,
      HexEncode(p.sha256(Utf8(CanonicalRequest(httpMethod, u.path, CanonicalBlock(toSign), signed, payloadHash))))));
    var auth := AuthorizationHeader(signer.accessKeyId, scope, signed, signature);
    var r := SignedRequestHeaders(p, signer, httpMethod, url, headers, payload, stamp).value;
    assert r == toSign[AuthorizationName := auth];
    AuthorizationNotSigned(signer, headers, SignedHost(p, url), stamp, payloadHash);
    RemoveAdded(toSign, AuthorizationName, auth);
    assert r - {AuthorizationName} == toSign;
    assert toSign[ContentHashName] == payloadHash;
  }

  /** Signing adds no `authorization` header of its own before the signature. */
  lemma AuthorizationNotSigned(signer: AwsV4Signer, headers: map<string, string>, host: string, stamp: Stamp, payloadHash: string)
    requires AuthorizationName !in headers
    ensures AuthorizationName !in HeadersToSign(signer, headers, host, stamp, payloadHash)
  {
    assert |AuthorizationName| == 13;
    assert |HostName| == 4 && |DateName| == 10 && |TokenName| == 20 && |ContentHashName| == 20;
  }

  /** Removing a key just added to a map that did not hold it gives the map back. */
  lemma RemoveAdded<K, V>(m: map<K, V>, k: K, v: V)
    requires k !in m
    ensures m[k := v] - {k} == m
  {
  }

  /** The header map carries the signing headers, keeps every other caller header, and adds nothing else. */
  predicate WellSigned(r: map<string, string>, p: Primitives, signer: AwsV4Signer, headers: map<string, string>,
                       host: string, payload: seq<byte>, stamp: Stamp) {
    && {HostName, DateName, ContentHashName, AuthorizationName} <= r.Keys
    && (TokenName in r <==> signer.sessionToken.Some? || TokenName in headers)
    && r[HostName] == host
    && r[DateName] == stamp.time
    && r[ContentHashName] == PayloadHash(p, payload)
    && (signer.sessionToken.Some? ==> r[TokenName] == signer.sessionToken.value)
    && (forall k | k in headers && k !in {HostName, DateName, TokenName, ContentHashName, AuthorizationName} ::
          k in r && r[k] == headers[k])
    && r.Keys <= headers.Keys + {HostName, DateName, TokenName, ContentHashName, AuthorizationName}
  }

  /** `sign_request`. */
  method SignRequest(
    p: Primitives, signer: AwsV4Signer, httpMethod: string, url: string,
    headers: map<string, string>, payload: seq<byte>, stamp: Stamp)
    returns (r: Result<map<string, string>, SignError>)
    ensures r == SignedRequestHeaders(p, signer, httpMethod, url, headers, payload, stamp)
    ensures r.Failure? <==> SigningFails(p, url)
    ensures r.Success? ==> !SigningFails(p, url) && WellSigned(r.value, p, signer, headers, SignedHost(p, url), payload, stamp)
  {
    var parsed := p.parseUrl(url);
    if parsed.None? {
      SignedRequestHeadersShape(p, signer, httpMethod, url, headers, payload, stamp);
      return Failure(UrlParseFailed);
    }
    var u := parsed.value;
    var hostResult := HostHeader(u);
    if hostResult.Failure? {
      SignedRequestHeadersShape(p, signer, httpMethod, url, headers, payload, stamp);
      return Failure(hostResult.error);
    }
    var host := hostResult.value;

    var signedHeaders := headers;
    signedHeaders := signedHeaders[HostName := host];
    signedHeaders := signedHeaders[DateName := stamp.time];
    ghost var withDate := signedHeaders;
    if signer.sessionToken.Some? {
      signedHeaders := signedHeaders[TokenName := signer.sessionToken.value];
    }
    assert signedHeaders == if signer.sessionToken.Some? then withDate[TokenName := signer.sessionToken.value] else withDate;
    var payloadHash := HexEncode(p.sha256(payload));
    signedHeaders := signedHeaders[ContentHashName := payloadHash];
    assert signedHeaders == HeadersToSign(signer, headers, host, stamp, payloadHash);

    var uri := u.path;
    var canonicalHeaders := CreateCanonicalHeaders(signedHeaders);
    var signedHeadersStr := GetSignedHeaders(signedHeaders);
    var canonicalRequest := CanonicalRequest(httpMethod, uri, canonicalHeaders, signedHeadersStr, payloadHash);

    var requestHash := HexEncode(p.sha256(Utf8(canonicalRequest)));
    var credentialScope := CredentialScope(stamp.date, signer.region);
    var stringToSign := StringToSign(stamp.time, credentialScope, requestHash);
    var signature := CalculateSignature(p, signer, stamp.date, stringToSign);
    var authHeader := AuthorizationHeader(signer.accessKeyId, credentialScope, signedHeadersStr, signature);
    signedHeaders := signedHeaders[AuthorizationName := authHeader];
    r := Success(signedHeaders);
    SignedRequestHeadersShape(p, signer, httpMethod, url, headers, payload, stamp);
  }
}
