/**
 * src/deploy.rs: the request executor with its retry and backoff loop, the
 * checks the vector operations make before anything is sent, batch upload in
 * chunks of at most 100 vectors, and the loops that poll a bucket or an index
 * until it is active.
 *
 * The network is a function from the attempt number to what that attempt got
 * back, with the body already decoded (or not) as the expected type and as the
 * service's error JSON. The clock is a function from the attempt number to the
 * time stamps that attempt signs with. Sleeping is recorded as the list of
 * delays slept, in milliseconds. Request bodies are given as the outcome of
 * serializing them.
 */
module Deploy {
  import opened Wrappers
  import opened Text
  import opened Auth
  import Client
  import Types
  import Validators

  const MaxRetries: nat := 3
  const InitialBackoffMs: nat := 100
  const MaxBackoffMs: nat := 5000
  const MaxBatchSize: nat := 100

  const ContentTypeName := "Content-Type"
  const ContentTypeJson := "application/x-amz-json-1.0"

  /** `S3VectorsError`. The wrapped `reqwest`, `serde_json` and `anyhow` errors are reduced to their messages. */
  datatype ClientError =
    | AuthRequired(message: string)
    | Validation(message: string)
    | NotFound(message: string)
    | AlreadyExists(message: string)
    | RateLimit(retryAfterMs: nat)
    | ServiceError(message: string)
    | RequestError(message: string)
    | JsonError(message: string)
    | Other(message: string)

  /**
   * What one attempt got back: a transport failure, or a status with its
   * reason phrase, the body text, the body decoded as the expected type, and
   * the body decoded as the service's error JSON.
   */
  datatype Exchange<T> =
    | SendFailed(reason: string)
    | Received(status: nat, reasonPhrase: string, text: string, parsed: Option<T>, errorBody: Option<Types.ServiceErrorBody>)

  predicate IsSuccess(status: nat) {
    200 <= status <= 299
  }

  predicate IsServerError(status: nat) {
    500 <= status <= 599
  }

  /** How `StatusCode` displays: the code and its reason phrase. */
  function StatusText(status: nat, reasonPhrase: string): string {
    NatToString(status) + " " + reasonPhrase
  }

  /** A response the loop answers with another attempt while retries remain: a decodable error body with status 429 or 5xx. */
  predicate Retryable<T>(e: Exchange<T>) {
    e.Received? && e.errorBody.Some? && (e.status == 429 || IsServerError(e.status))
  }

  datatype Decision<T> = Done(result: Result<T, ClientError>) | Retry

  /** What one iteration of `execute_request`'s loop does with the response it got. */
  function Classify<T>(e: Exchange<T>, retries: nat, backoff: nat): (d: Decision<T>)
    ensures d.Retry? <==> Retryable(e) && retries < MaxRetries
  {
    match e
    case SendFailed(reason) => Done(Failure(RequestError(reason)))
    case Received(status, reasonPhrase, text, parsed, errorBody) =>
      if IsSuccess(status) then
        if parsed.Some? then Done(Success(parsed.value)) else Done(Failure(Other("Failed to parse response")))
      else if errorBody.Some? then
        var message := errorBody.value.message;
        if status == 404 then Done(Failure(NotFound(message)))
        else if status == 409 then Done(Failure(AlreadyExists(message)))
        else if status == 429 then
          if retries < MaxRetries then Retry else Done(Failure(RateLimit(backoff)))
        else if IsServerError(status) && retries < MaxRetries then Retry
        else Done(Failure(ServiceError(message)))
      else
        Done(Failure(ServiceError("Request failed with status " + StatusText(status, reasonPhrase) + ": " + text)))
  }

  /**
   * How each kind of response ends the loop: 404 and 409 with a decodable body
   * become `NotFound` and `AlreadyExists` at once, an undecodable error body
   * ends the call even for 429 and 5xx, a transport failure is not retried,
   * and a retryable response on the last attempt reports the backoff in force.
   */
  lemma ClassifyOutcomes<T>(e: Exchange<T>, retries: nat, backoff: nat)
    ensures e.SendFailed? ==> Classify(e, retries, backoff) == Done(Failure(RequestError(e.reason)))
    ensures e.Received? && IsSuccess(e.status) ==>
      Classify(e, retries, backoff) == Done(if e.parsed.Some? then Success(e.parsed.value) else Failure(Other("Failed to parse response")))
    ensures e.Received? && e.errorBody.Some? && e.status == 404 ==> Classify(e, retries, backoff) == Done(Failure(NotFound(e.errorBody.value.message)))
    ensures e.Received? && e.errorBody.Some? && e.status == 409 ==> Classify(e, retries, backoff) == Done(Failure(AlreadyExists(e.errorBody.value.message)))
    ensures e.Received? && !IsSuccess(e.status) && e.errorBody.None? ==>
      Classify(e, retries, backoff) == Done(Failure(ServiceError("Request failed with status " + StatusText(e.status, e.reasonPhrase) + ": " + e.text)))
    ensures Retryable(e) && retries >= MaxRetries ==>
      Classify(e, retries, backoff) == Done(Failure(if e.status == 429 then RateLimit(backoff) else ServiceError(e.errorBody.value.message)))
  {
  }

  /** `(backoff * 2).min(MAX_BACKOFF_MS)`. */
  function NextBackoff(backoff: nat): (r: nat)
    ensures r <= MaxBackoffMs
    ensures r == Min(2 * backoff, MaxBackoffMs)
  {
    if backoff * 2 < MaxBackoffMs then backoff * 2 else MaxBackoffMs
  }

  function Pow2(n: nat): (r: nat)
    ensures r >= 1
  {
    if n == 0 then 1 else 2 * Pow2(n - 1)
  }

  /** The delay in force after `retries` retries. */
  function Backoff(retries: nat): (r: nat)
    ensures 0 < r <= MaxBackoffMs
  {
    if retries == 0 then InitialBackoffMs else NextBackoff(Backoff(retries - 1))
  }

  /** The delay doubles from 100 ms and is capped at 5000 ms. */
  lemma {:induction false} BackoffClosedForm(retries: nat)
    ensures Backoff(retries) == Min(InitialBackoffMs * Pow2(retries), MaxBackoffMs)
  {
    if retries > 0 {
      BackoffClosedForm(retries - 1);
      var prev := InitialBackoffMs * Pow2(retries - 1);
      assert InitialBackoffMs * Pow2(retries) == 2 * prev;
    }
  }

  /** With three retries the cap is never reached: the delays are 100, 200 and 400 ms, and 800 ms is in force after the third. */
  lemma BackoffValues()
    ensures Backoff(0) == 100 && Backoff(1) == 200 && Backoff(2) == 400 && Backoff(3) == 800
  {
  }

  /**
   * The retry loop from attempt `retries` on: its result and the delays it
   * sleeps. Attempt `i` gets `network(i)`; the 429 and 5xx paths share the one
   * counter and the one backoff.
   */
  function Attempts<T>(network: nat -> Exchange<T>, retries: nat): (r: (Result<T, ClientError>, seq<nat>))
    requires retries <= MaxRetries
    ensures |r.1| <= MaxRetries - retries
    ensures forall i | 0 <= i < |r.1| :: r.1[i] == Backoff(retries + i)
    decreases MaxRetries - retries
  {
    match Classify(network(retries), retries, Backoff(retries))
    case Done(result) => (result, [])
    case Retry =>
      var rest := Attempts(network, retries + 1);
      (rest.0, [Backoff(retries)] + rest.1)
  }

  /**
   * The loop sleeps once per retryable response and stops at the first response
   * that is not retryable or when retries run out; the result is what that
   * last attempt decides.
   */
  lemma {:induction false} AttemptsCharacterized<T>(network: nat -> Exchange<T>, retries: nat)
    requires retries <= MaxRetries
    ensures var (result, sleeps) := Attempts(network, retries);
      var last := retries + |sleeps|;
      && last <= MaxRetries
      && (forall i | retries <= i < last :: Retryable(network(i)))
      && Classify(network(last), last, Backoff(last)) == Done(result)
    decreases MaxRetries - retries
  {
    if Classify(network(retries), retries, Backoff(retries)).Retry? {
      AttemptsCharacterized(network, retries + 1);
      var rest := Attempts(network, retries + 1);
      assert Attempts(network, retries) == (rest.0, [Backoff(retries)] + rest.1);
      assert retries + |[Backoff(retries)] + rest.1| == retries + 1 + |rest.1|;
    }
  }

  /** Four retryable responses in a row, in any mix of 429 and 5xx, use up the one budget of three retries. */
  lemma RetriesExhausted<T>(network: nat -> Exchange<T>)
    requires forall i | 0 <= i <= MaxRetries :: Retryable(network(i))
    ensures Attempts(network, 0).1 == [100, 200, 400]
    ensures var last := network(3);
      Attempts(network, 0).0 == Failure(if last.status == 429 then RateLimit(800) else ServiceError(last.errorBody.value.message))
  {
    AttemptsCharacterized(network, 0);
    BackoffValues();
    var sleeps := Attempts(network, 0).1;
    assert |sleeps| == 3;
    assert sleeps == [Backoff(0), Backoff(1), Backoff(2)];
  }

  /** A first response that is not retryable ends the call without sleeping. */
  lemma FirstAttemptFinal<T>(network: nat -> Exchange<T>)
    requires !Retryable(network(0))
    ensures Attempts(network, 0) == (Classify(network(0), 0, InitialBackoffMs).result, [])
  {
  }

  /** Why signing failed, as `sign_request` words it. */
  function SignFailureMessage(e: SignError): string {
    match e
    case UrlParseFailed => "Failed to parse URL"
    case NoHost => "URL has no host"
  }

  /** The payload signed and sent: the serialized body, or nothing. */
  function Payload(body: Option<Result<seq<byte>, string>>): seq<byte> {
    if body.Some? && body.value.Success? then body.value.value else []
  }

  /** The call gets as far as sending: a signer, a serializable body and a URL that signs. */
  predicate Sends(client: Client.S3VectorsClient, p: Primitives, path: string, body: Option<Result<seq<byte>, string>>) {
    client.signer.Some? && !(body.Some? && body.value.Failure?) && !SigningFails(p, client.endpoint + path)
  }

  /** Why `execute_request` fails before sending anything, if it does. */
  function SendFailure(client: Client.S3VectorsClient, p: Primitives, path: string, body: Option<Result<seq<byte>, string>>): (r: Option<ClientError>)
    ensures r.None? <==> Sends(client, p, path, body)
    ensures client.signer.None? ==> r == Some(AuthRequired("No credentials configured"))
    ensures client.signer.Some? && body.Some? && body.value.Failure? ==> r == Some(JsonError(body.value.error))
    ensures client.signer.Some? && !(body.Some? && body.value.Failure?) && p.parseUrl(client.endpoint + path).None? ==>
      r == Some(Other("Failed to parse URL"))
    ensures (client.signer.Some? && !(body.Some? && body.value.Failure?) &&
             p.parseUrl(client.endpoint + path).Some? && p.parseUrl(client.endpoint + path).value.host.None?) ==>
      r == Some(Other("URL has no host"))
  {
    var url := client.endpoint + path;
    if client.signer.None? then Some(AuthRequired("No credentials configured"))
    else if body.Some? && body.value.Failure? then Some(JsonError(body.value.error))
    else if SigningFails(p, url) then
      Some(Other(SignFailureMessage(if p.parseUrl(url).None? then UrlParseFailed else NoHost)))
    else None
  }

  /** `execute_request`: its result and the delays it sleeps. */
  function Execute<T>(client: Client.S3VectorsClient, p: Primitives, path: string, body: Option<Result<seq<byte>, string>>,
                      network: nat -> Exchange<T>): (r: (Result<T, ClientError>, seq<nat>))
    ensures !Sends(client, p, path, body) ==> r == (Failure(SendFailure(client, p, path, body).value), [])
    ensures Sends(client, p, path, body) ==> r == Attempts(network, 0)
  {
    match SendFailure(client, p, path, body)
    case Some(e) => (Failure(e), [])
    case None => Attempts(network, 0)
  }

  /**
   * What the headers of an attempt signed at `stamp` carry: the URL's host,
   * the time stamp, the payload hash, the session token exactly when there is
   * one, an authorization value, the content type, and nothing else.
   */
  ghost predicate SentFor(h: map<string, string>, client: Client.S3VectorsClient, p: Primitives, path: string,
                          body: Option<Result<seq<byte>, string>>, stamp: Stamp)
    requires client.signer.Some?
  {
    var signer := client.signer.value;
    && !SigningFails(p, client.endpoint + path)
    && {HostName, DateName, ContentHashName, AuthorizationName, ContentTypeName} <= h.Keys
    && h[HostName] == SignedHost(p, client.endpoint + path)
    && h[DateName] == stamp.time
    && h[ContentHashName] == PayloadHash(p, Payload(body))
    && h[ContentTypeName] == ContentTypeJson
    && (TokenName in h <==> signer.sessionToken.Some?)
    && (signer.sessionToken.Some? ==> h[TokenName] == signer.sessionToken.value)
    && h.Keys <= {HostName, DateName, TokenName, ContentHashName, AuthorizationName, ContentTypeName}
  }

  /** The headers of one attempt: the map `sign_request` returns for an empty header map, plus the content type. */
  ghost predicate PreparedFor(h: map<string, string>, client: Client.S3VectorsClient, p: Primitives, httpMethod: string,
                              path: string, payload: seq<byte>, stamp: Stamp)
    requires client.signer.Some?
  {
    var signed := SignedRequestHeaders(p, client.signer.value, httpMethod, client.endpoint + path, map[], payload, stamp);
    && signed.Success?
    && h == signed.value[ContentTypeName := ContentTypeJson]
  }

  /**
   * The `authorization` value of an attempt's headers is the signature over
   * the other headers, leaving out the content type, which is added after
   * signing.
   */
  lemma PreparedSignature(h: map<string, string>, client: Client.S3VectorsClient, p: Primitives, httpMethod: string,
                          path: string, payload: seq<byte>, stamp: Stamp)
    requires client.signer.Some? && PreparedFor(h, client, p, httpMethod, path, payload, stamp)
    ensures !SigningFails(p, client.endpoint + path)
    ensures var signer := client.signer.value;
      var u := p.parseUrl(client.endpoint + path).value;
      var s := h - {ContentTypeName, AuthorizationName};
      var scope := CredentialScope(stamp.date, signer.region);
      && AuthorizationName in h && ContentHashName in s
      && h[AuthorizationName] == AuthorizationHeader(signer.accessKeyId, scope, SignedHeaderList(s),
           CalculateSignature(p, signer, stamp.date, StringToSign(stamp.time, scope,
             HexEncode(p.sha256(Utf8(CanonicalRequest(httpMethod, u.path, CanonicalBlock(s), SignedHeaderList(s), s[ContentHashName])))))))
  {
    var url := client.endpoint + path;
    var signed := SignedRequestHeaders(p, client.signer.value, httpMethod, url, map[], payload, stamp).value;
    SignedRequestHeadersShape(p, client.signer.value, httpMethod, url, map[], payload, stamp);
    SignatureOverSentHeaders(p, client.signer.value, httpMethod, url, map[], payload, stamp);
    ContentTypeAfterSigning(signed, p, client.signer.value, SignedHost(p, url), payload, stamp);
    RemoveBoth(signed, ContentTypeName, ContentTypeJson, AuthorizationName);
  }

  /** Adding a key a map does not hold, then removing it and another key, is removing the other key. */
  lemma RemoveBoth<K, V>(m: map<K, V>, k: K, v: V, other: K)
    requires k !in m
    ensures m[k := v] - {k, other} == m - {other}
  {
  }

  /** An attempt's headers have the shape `SentFor` states. */
  lemma PreparedIsSent(h: map<string, string>, client: Client.S3VectorsClient, p: Primitives, httpMethod: string,
                       path: string, body: Option<Result<seq<byte>, string>>, stamp: Stamp)
    requires client.signer.Some? && PreparedFor(h, client, p, httpMethod, path, Payload(body), stamp)
    ensures SentFor(h, client, p, path, body, stamp)
  {
    var url := client.endpoint + path;
    var signed := SignedRequestHeaders(p, client.signer.value, httpMethod, url, map[], Payload(body), stamp).value;
    SignedRequestHeadersShape(p, client.signer.value, httpMethod, url, map[], Payload(body), stamp);
    ContentTypeAfterSigning(signed, p, client.signer.value, SignedHost(p, url), Payload(body), stamp);
  }

  /**
   * `execute_request`. Every attempt serializes the body, signs with that
   * attempt's time stamps and sends; `sent` holds the headers of each request
   * sent.
   */
  method ExecuteRequest<T>(client: Client.S3VectorsClient, p: Primitives, httpMethod: string, path: string,
                           body: Option<Result<seq<byte>, string>>, clock: nat -> Stamp, network: nat -> Exchange<T>)
    returns (r: Result<T, ClientError>, sleeps: seq<nat>, sent: seq<map<string, string>>)
    ensures (r, sleeps) == Execute(client, p, path, body, network)
    ensures |sent| == if Sends(client, p, path, body) then |sleeps| + 1 else 0
    ensures forall i | 0 <= i < |sent| :: client.signer.Some? && SentFor(sent[i], client, p, path, body, clock(i))
  {
    if client.signer.None? {
      return Failure(AuthRequired("No credentials configured")), [], [];
    }
    var retries: nat := 0;
    var backoff: nat := InitialBackoffMs;
    sleeps, sent := [], [];
    assert Attempts(network, 0).1 == sleeps + Attempts(network, 0).1;
    while true
      invariant Progress(client, p, httpMethod, path, body, clock, network, retries, sleeps, sent)
      invariant backoff == Backoff(retries)
      decreases MaxRetries - retries
    {
      var prepared := PrepareRequest(client, p, httpMethod, path, body, clock(retries));
      if prepared.Failure? {
        r := Failure(prepared.error);
        NothingSent(client, p, httpMethod, path, body, clock, network, retries, sleeps, sent, r);
        return r, sleeps, sent;
      }
      match Classify(network(retries), retries, backoff)
      case Done(result) =>
        LastAttempt(client, p, httpMethod, path, body, clock, network, retries, sleeps, sent, prepared.value, result);
        return result, sleeps, sent + [prepared.value];
      case Retry =>
        NextAttempt(client, p, httpMethod, path, body, clock, network, retries, sleeps, sent, prepared.value);
        sleeps := sleeps + [backoff];
        sent := sent + [prepared.value];
        backoff := NextBackoff(backoff);
        retries := retries + 1;
    }
  }

  /**
   * The retry loop's invariant after `retries` retries: every earlier attempt
   * sent its own freshly signed headers, and what remains of the loop gives the
   * call's result and the rest of its delays.
   */
  ghost predicate Progress<T>(client: Client.S3VectorsClient, p: Primitives, httpMethod: string, path: string,
                              body: Option<Result<seq<byte>, string>>, clock: nat -> Stamp, network: nat -> Exchange<T>,
                              retries: nat, sleeps: seq<nat>, sent: seq<map<string, string>>)
  {
    && client.signer.Some?
    && retries <= MaxRetries
    && |sleeps| == retries && |sent| == retries
    && (retries > 0 ==> Sends(client, p, path, body))
    && (forall i | 0 <= i < retries :: SentFor(sent[i], client, p, path, body, clock(i)))
    && Attempts(network, 0) == (Attempts(network, retries).0, sleeps + Attempts(network, retries).1)
  }

  lemma NothingSent<T>(client: Client.S3VectorsClient, p: Primitives, httpMethod: string, path: string,
                       body: Option<Result<seq<byte>, string>>, clock: nat -> Stamp, network: nat -> Exchange<T>,
                       retries: nat, sleeps: seq<nat>, sent: seq<map<string, string>>, r: Result<T, ClientError>)
    requires Progress(client, p, httpMethod, path, body, clock, network, retries, sleeps, sent)
    requires !Sends(client, p, path, body) && r == Failure(SendFailure(client, p, path, body).value)
    ensures (r, sleeps) == Execute(client, p, path, body, network)
    ensures |sent| == 0 && sleeps == []
  {
  }

  lemma LastAttempt<T>(client: Client.S3VectorsClient, p: Primitives, httpMethod: string, path: string,
                       body: Option<Result<seq<byte>, string>>, clock: nat -> Stamp, network: nat -> Exchange<T>,
                       retries: nat, sleeps: seq<nat>, sent: seq<map<string, string>>, headers: map<string, string>, result: Result<T, ClientError>)
    requires Progress(client, p, httpMethod, path, body, clock, network, retries, sleeps, sent)
    requires Sends(client, p, path, body) && SentFor(headers, client, p, path, body, clock(retries))
    requires Classify(network(retries), retries, Backoff(retries)) == Done(result)
    ensures (result, sleeps) == Execute(client, p, path, body, network)
    ensures |sent + [headers]| == |sleeps| + 1
    ensures forall i | 0 <= i < |sent + [headers]| :: SentFor((sent + [headers])[i], client, p, path, body, clock(i))
  {
    assert sleeps + [] == sleeps;
  }

  lemma NextAttempt<T>(client: Client.S3VectorsClient, p: Primitives, httpMethod: string, path: string,
                       body: Option<Result<seq<byte>, string>>, clock: nat -> Stamp, network: nat -> Exchange<T>,
                       retries: nat, sleeps: seq<nat>, sent: seq<map<string, string>>, headers: map<string, string>)
    requires Progress(client, p, httpMethod, path, body, clock, network, retries, sleeps, sent)
    requires Sends(client, p, path, body) && SentFor(headers, client, p, path, body, clock(retries))
    requires Classify(network(retries), retries, Backoff(retries)).Retry?
    ensures Progress(client, p, httpMethod, path, body, clock, network, retries + 1, sleeps + [Backoff(retries)], sent + [headers])
  {
    var rest := Attempts(network, retries + 1);
    ConcatAssoc(sleeps, [Backoff(retries)], rest.1, sleeps + [Backoff(retries)] + rest.1);
  }

  /** The content type is added after signing and is not one of the signed headers. */
  lemma ContentTypeAfterSigning(signed: map<string, string>, p: Primitives, signer: AwsV4Signer, host: string,
                                payload: seq<byte>, stamp: Stamp)
    requires WellSigned(signed, p, signer, map[], host, payload, stamp)
    ensures ContentTypeName !in signed
  {
    assert |ContentTypeName| == 12;
    assert ContentTypeName !in {HostName, DateName, TokenName, ContentHashName, AuthorizationName} by {
      assert |HostName| == 4 && |DateName| == 10 && |TokenName| == 20 && |ContentHashName| == 20 && |AuthorizationName| == 13;
    }
  }

  /**
   * Sign for one attempt and add the content type: the headers sent are the
   * map `sign_request` returns for an empty header map, plus the content type.
   */
  method SignAttempt(client: Client.S3VectorsClient, p: Primitives, httpMethod: string, path: string,
                     payload: seq<byte>, stamp: Stamp)
    returns (r: Result<map<string, string>, SignError>)
    requires client.signer.Some?
    ensures r.Failure? <==> SigningFails(p, client.endpoint + path)
    ensures r.Failure? ==> r.error == if p.parseUrl(client.endpoint + path).None? then UrlParseFailed else NoHost
    ensures r.Success? ==> PreparedFor(r.value, client, p, httpMethod, path, payload, stamp)
  {
    var signed := SignRequest(p, client.signer.value, httpMethod, client.endpoint + path, map[], payload, stamp);
    if signed.Failure? {
      return Failure(signed.error);
    }
    r := Success(signed.value[ContentTypeName := ContentTypeJson]);
  }

  /**
   * The part of one attempt before sending: serialize the body, sign with
   * this attempt's time stamps, and add the content type.
   */
  method PrepareRequest(client: Client.S3VectorsClient, p: Primitives, httpMethod: string, path: string,
                        body: Option<Result<seq<byte>, string>>, stamp: Stamp)
    returns (r: Result<map<string, string>, ClientError>)
    requires client.signer.Some?
    ensures r.Failure? <==> !Sends(client, p, path, body)
    ensures r.Failure? ==> r.error == SendFailure(client, p, path, body).value
    ensures r.Success? ==> SentFor(r.value, client, p, path, body, stamp)
  {
    var payload: seq<byte> := [];
    if body.Some? {
      if body.value.Failure? {
        return Failure(JsonError(body.value.error));
      }
      payload := body.value.value;
    }
    assert payload == Payload(body);
    var signed := SignAttempt(client, p, httpMethod, path, payload, stamp);
    if signed.Failure? {
      r := Failure(Other(SignFailureMessage(signed.error)));
    } else {
      r := Success(signed.value);
      PreparedIsSent(r.value, client, p, httpMethod, path, body, stamp);
    }
  }

  // ----- The vector operations -----

  /** The two name checks every vector operation starts with: the bucket name first, then the index name. */
  function CheckNames(bucketName: string, indexName: string): (r: Option<ClientError>)
    ensures r.None? <==> Validators.ValidateBucketName(bucketName).Success? && Validators.ValidateIndexName(indexName).Success?
    ensures Validators.ValidateBucketName(bucketName).Failure? ==>
      r == Some(Validation(Validators.Message(Validators.ValidateBucketName(bucketName).error)))
    ensures Validators.ValidateBucketName(bucketName).Success? && Validators.ValidateIndexName(indexName).Failure? ==>
      r == Some(Validation(Validators.Message(Validators.ValidateIndexName(indexName).error)))
  {
    match Validators.ValidateBucketName(bucketName)
    case Failure(e) => Some(Validation(Validators.Message(e)))
    case Success(_) =>
      match Validators.ValidateIndexName(indexName)
      case Failure(e) => Some(Validation(Validators.Message(e)))
      case Success(_) => None
  }

  /** What `put_vectors` checks before sending: the names, then a batch of 1 to 100 vectors. */
  function PutVectorsCheck(bucketName: string, indexName: string, count: nat): (r: Option<ClientError>)
    ensures r.None? <==> CheckNames(bucketName, indexName).None? && 1 <= count <= MaxBatchSize
    ensures CheckNames(bucketName, indexName).Some? ==> r == CheckNames(bucketName, indexName)
    ensures CheckNames(bucketName, indexName).None? && count == 0 ==> r == Some(Validation("No vectors provided"))
    ensures CheckNames(bucketName, indexName).None? && count > MaxBatchSize ==>
      r == Some(Validation("Batch size " + NatToString(count) + " exceeds maximum of " + NatToString(MaxBatchSize)))
  {
    if CheckNames(bucketName, indexName).Some? then CheckNames(bucketName, indexName)
    else if count == 0 then Some(Validation("No vectors provided"))
    else if count > MaxBatchSize then
      Some(Validation("Batch size " + NatToString(count) + " exceeds maximum of " + NatToString(MaxBatchSize)))
    else None
  }

  /** What `get_vectors` and `delete_vectors` check before sending: the names, then at least one key. */
  function KeysCheck(bucketName: string, indexName: string, count: nat): (r: Option<ClientError>)
    ensures r.None? <==> CheckNames(bucketName, indexName).None? && count >= 1
    ensures CheckNames(bucketName, indexName).Some? ==> r == CheckNames(bucketName, indexName)
    ensures CheckNames(bucketName, indexName).None? && count == 0 ==> r == Some(Validation("No keys provided"))
  {
    if CheckNames(bucketName, indexName).Some? then CheckNames(bucketName, indexName)
    else if count == 0 then Some(Validation("No keys provided"))
    else None
  }

  /** The path of an index's vectors; `get` and `delete` add a last segment. */
  function VectorsPath(bucketName: string, indexName: string): string {
    "/v1/vectorbuckets/" + bucketName + "/indexes/" + indexName + "/vectors"
  }

  /** Seven segments joined by '/'. */
  lemma JoinSevenSegments(a: string, b: string, c: string, d: string, e: string, f: string, g: string)
    ensures Join([a, b, c, d, e, f, g], "/") == a + "/" + b + "/" + c + "/" + d + "/" + e + "/" + f + "/" + g
  {
    JoinCons(f, [g], "/");
    JoinCons(e, [f, g], "/");
    JoinCons(d, [e, f, g], "/");
    JoinCons(c, [d, e, f, g], "/");
    JoinCons(b, [c, d, e, f, g], "/");
    JoinCons(a, [b, c, d, e, f, g], "/");
    assert [a, b, c, d, e, f, g] == [a] + [b, c, d, e, f, g];
  }

  /** The path is the '/'-join of its segments. */
  lemma VectorsPathSegments(bucketName: string, indexName: string)
    ensures VectorsPath(bucketName, indexName) == Join(["", "v1", "vectorbuckets", bucketName, "indexes", indexName, "vectors"], "/")
  {
    JoinSevenSegments("", "v1", "vectorbuckets", bucketName, "indexes", indexName, "vectors");
    assert "/v1/vectorbuckets/" == "" + "/" + "v1" + "/" + "vectorbuckets" + "/";
    assert "/indexes/" == "/" + "indexes" + "/";
    assert "/vectors" == "/" + "vectors";
  }

  /**
   * Names that pass the checks contain no '/', so the path names the bucket
   * and the index in its fourth and sixth segments.
   */
  lemma VectorsPathNamesTarget(bucketName: string, indexName: string)
    requires CheckNames(bucketName, indexName).None?
    ensures Split(VectorsPath(bucketName, indexName), '/') == ["", "v1", "vectorbuckets", bucketName, "indexes", indexName, "vectors"]
  {
    var parts := ["", "v1", "vectorbuckets", bucketName, "indexes", indexName, "vectors"];
    assert !Validators.IsBucketChar('/') && !Validators.IsIndexChar('/');
    forall k | 0 <= k < |bucketName| ensures bucketName[k] != '/' {
      assert Validators.IsBucketChar(bucketName[k]);
    }
    forall k | 0 <= k < |indexName| ensures indexName[k] != '/' {
      assert Validators.IsIndexChar(indexName[k]);
    }
    VectorsPathSegments(bucketName, indexName);
    SplitJoin(parts, '/');
  }

  /** What `put_vectors` returns: a failed check, or the request's outcome. */
  function PutVectorsOutcome(client: Client.S3VectorsClient, p: Primitives, bucketName: string, indexName: string,
                             count: nat, body: Result<seq<byte>, string>, network: nat -> Exchange<()>): Result<(), ClientError>
  {
    match PutVectorsCheck(bucketName, indexName, count)
    case Some(e) => Failure(e)
    case None => Execute(client, p, VectorsPath(bucketName, indexName), Some(body), network).0
  }

  /**
   * `put_vectors`: nothing is sent unless the names pass and the batch holds 1
   * to 100 vectors; then one POST to the index's vectors path.
   */
  method PutVectors(client: Client.S3VectorsClient, p: Primitives, bucketName: string, indexName: string,
                    vectors: seq<Types.Vector>, body: Result<seq<byte>, string>, clock: nat -> Stamp, network: nat -> Exchange<()>)
    returns (r: Result<(), ClientError>, sleeps: seq<nat>, sent: seq<map<string, string>>)
    ensures r == PutVectorsOutcome(client, p, bucketName, indexName, |vectors|, body, network)
    ensures PutVectorsCheck(bucketName, indexName, |vectors|).Some? ==> sleeps == [] && sent == []
    ensures PutVectorsCheck(bucketName, indexName, |vectors|).None? ==>
      sleeps == Execute(client, p, VectorsPath(bucketName, indexName), Some(body), network).1
    ensures forall i | 0 <= i < |sent| :: client.signer.Some? && SentFor(sent[i], client, p, VectorsPath(bucketName, indexName), Some(body), clock(i))
  {
    var check := PutVectorsCheck(bucketName, indexName, |vectors|);
    if check.Some? {
      return Failure(check.value), [], [];
    }
    r, sleeps, sent := ExecuteRequest(client, p, "POST", VectorsPath(bucketName, indexName), Some(body), clock, network);
  }

  /** `get_vectors`: nothing is sent unless the names pass and at least one key is asked for. */
  method GetVectors<T>(client: Client.S3VectorsClient, p: Primitives, bucketName: string, indexName: string,
                       keys: seq<string>, body: Result<seq<byte>, string>, clock: nat -> Stamp, network: nat -> Exchange<T>)
    returns (r: Result<T, ClientError>, sleeps: seq<nat>, sent: seq<map<string, string>>)
    ensures KeysCheck(bucketName, indexName, |keys|).Some? ==>
      r == Failure(KeysCheck(bucketName, indexName, |keys|).value) && sleeps == [] && sent == []
    ensures KeysCheck(bucketName, indexName, |keys|).None? ==>
      (r, sleeps) == Execute(client, p, VectorsPath(bucketName, indexName) + "/get", Some(body), network)
    ensures forall i | 0 <= i < |sent| :: client.signer.Some? && SentFor(sent[i], client, p, VectorsPath(bucketName, indexName) + "/get", Some(body), clock(i))
  {
    var check := KeysCheck(bucketName, indexName, |keys|);
    if check.Some? {
      return Failure(check.value), [], [];
    }
    r, sleeps, sent := ExecuteRequest(client, p, "POST", VectorsPath(bucketName, indexName) + "/get", Some(body), clock, network);
  }

  /** `delete_vectors`: nothing is sent unless the names pass and at least one key is named. */
  method DeleteVectors(client: Client.S3VectorsClient, p: Primitives, bucketName: string, indexName: string,
                       keys: seq<string>, body: Result<seq<byte>, string>, clock: nat -> Stamp, network: nat -> Exchange<()>)
    returns (r: Result<(), ClientError>, sleeps: seq<nat>, sent: seq<map<string, string>>)
    ensures KeysCheck(bucketName, indexName, |keys|).Some? ==>
      r == Failure(KeysCheck(bucketName, indexName, |keys|).value) && sleeps == [] && sent == []
    ensures KeysCheck(bucketName, indexName, |keys|).None? ==>
      (r, sleeps) == Execute(client, p, VectorsPath(bucketName, indexName) + "/delete", Some(body), network)
    ensures forall i | 0 <= i < |sent| :: client.signer.Some? && SentFor(sent[i], client, p, VectorsPath(bucketName, indexName) + "/delete", Some(body), clock(i))
  {
    var check := KeysCheck(bucketName, indexName, |keys|);
    if check.Some? {
      return Failure(check.value), [], [];
    }
    r, sleeps, sent := ExecuteRequest(client, p, "POST", VectorsPath(bucketName, indexName) + "/delete", Some(body), clock, network);
  }

  // ----- Batch upload -----

  function Flatten<T>(chunks: seq<seq<T>>): seq<T> {
    if chunks == [] then [] else chunks[0] + Flatten(chunks[1..])
  }

  /**
   * `<[T]>::chunks(size)`: consecutive pieces of `size` elements, the last one
   * possibly shorter; none for an empty input.
   */
  function Chunks<T>(s: seq<T>, size: nat): (r: seq<seq<T>>)
    requires size > 0
    ensures Flatten(r) == s
    ensures forall i | 0 <= i < |r| :: 1 <= |r[i]| <= size
    ensures forall i | 0 <= i < |r| - 1 :: |r[i]| == size
    decreases |s|
  {
    if s == [] then []
    else if |s| <= size then
      assert Flatten([s]) == s + Flatten([]);
      [s]
    else
      var rest := Chunks(s[size..], size);
      assert ([s[..size]] + rest)[1..] == rest;
      assert s[..size] + s[size..] == s;
      [s[..size]] + rest
  }

  datatype BatchError = InvalidVector(vectorError: Types.VectorError) | PutFailed(putError: ClientError)

  /** The first vector that fails validation, and its error. */
  function FirstInvalid(vectors: seq<Types.Vector>, expectedDimensions: nat): (r: Option<Types.VectorError>)
    ensures r.None? <==> forall i | 0 <= i < |vectors| :: Types.Validate(vectors[i], expectedDimensions).Success?
    ensures r.Some? ==> exists i | 0 <= i < |vectors| ::
      && Types.Validate(vectors[i], expectedDimensions) == Failure(r.value)
      && forall j | 0 <= j < i :: Types.Validate(vectors[j], expectedDimensions).Success?
  {
    if vectors == [] then None
    else match Types.Validate(vectors[0], expectedDimensions)
      case Failure(e) => Some(e)
      case Success(_) =>
        var rest := FirstInvalid(vectors[1..], expectedDimensions);
        if rest.Some? then
          var i :| 0 <= i < |vectors[1..]| && Types.Validate(vectors[1..][i], expectedDimensions) == Failure(rest.value)
            && forall j | 0 <= j < i :: Types.Validate(vectors[1..][j], expectedDimensions).Success?;
          assert Types.Validate(vectors[i + 1], expectedDimensions) == Failure(rest.value);
          assert forall j | 0 <= j < i + 1 :: Types.Validate(vectors[j], expectedDimensions).Success? by {
            forall j | 0 <= j < i + 1 ensures Types.Validate(vectors[j], expectedDimensions).Success? {
              if j > 0 { assert vectors[j] == vectors[1..][j - 1]; }
            }
          }
          rest
        else
          assert forall i | 0 <= i < |vectors| :: Types.Validate(vectors[i], expectedDimensions).Success? by {
            forall i | 0 <= i < |vectors| ensures Types.Validate(vectors[i], expectedDimensions).Success? {
              if i > 0 { assert vectors[i] == vectors[1..][i - 1]; }
            }
          }
          rest
  }

  /** A scan that finds the first failing vector at `j` agrees with `FirstInvalid`. */
  lemma FirstInvalidAt(vectors: seq<Types.Vector>, expectedDimensions: nat, j: nat)
    requires j < |vectors| && Types.Validate(vectors[j], expectedDimensions).Failure?
    requires forall k | 0 <= k < j :: Types.Validate(vectors[k], expectedDimensions).Success?
    ensures FirstInvalid(vectors, expectedDimensions) == Some(Types.Validate(vectors[j], expectedDimensions).error)
  {
    var r := FirstInvalid(vectors, expectedDimensions);
    var i :| 0 <= i < |vectors| && Types.Validate(vectors[i], expectedDimensions) == Failure(r.value)
      && forall k | 0 <= k < i :: Types.Validate(vectors[k], expectedDimensions).Success?;
    assert Types.Validate(vectors[i], expectedDimensions).Failure?;
    assert i == j;
  }

  /** What `put_vectors` returns for each chunk, were it called. */
  function PutOutcomes(client: Client.S3VectorsClient, p: Primitives, bucketName: string, indexName: string,
                       chunks: seq<seq<Types.Vector>>, encode: seq<Types.Vector> -> Result<seq<byte>, string>,
                       network: nat -> nat -> Exchange<()>): (r: seq<Result<(), ClientError>>)
    ensures |r| == |chunks|
  {
    seq(|chunks|, j requires 0 <= j < |chunks| =>
      PutVectorsOutcome(client, p, bucketName, indexName, |chunks[j]|, encode(chunks[j]), network(j)))
  }

  /** Putting the chunks from the `k`-th on, in order, up to the first failure: its error and the number of puts. */
  function PutRun(outcomes: seq<Result<(), ClientError>>, k: nat): (r: (Result<(), ClientError>, nat))
    requires k <= |outcomes|
    ensures k + r.1 <= |outcomes|
    ensures r.0.Failure? ==> r.1 >= 1
    decreases |outcomes| - k
  {
    if k == |outcomes| then (Success(()), 0)
    else if outcomes[k].Failure? then (outcomes[k], 1)
    else
      var rest := PutRun(outcomes, k + 1);
      (rest.0, rest.1 + 1)
  }

  /**
   * `batch_put_vectors`: the result, the number of `put_vectors` calls and the
   * number of 100 ms pauses. Every vector is validated before anything is sent;
   * then the chunks of 100 are put in order, stopping at the first failure, with
   * a pause after each successful put when there are more than 100 vectors.
   * `outcomes[k]` is what the put of the `k`-th chunk returns.
   */
  function BatchPut(vectors: seq<Types.Vector>, expectedDimensions: nat, outcomes: seq<Result<(), ClientError>>)
    : (Result<(), BatchError>, nat, nat)
  {
    match FirstInvalid(vectors, expectedDimensions)
    case Some(e) => (Failure(InvalidVector(e)), 0, 0)
    case None =>
      var (result, puts, pauses) := Uploads(outcomes, |vectors| > MaxBatchSize);
      (if result.Success? then Success(()) else Failure(PutFailed(result.error)), puts, pauses)
  }

  /** The upload loop's result, number of puts and number of pauses, pausing after each successful put when `pauseEach`. */
  function Uploads(outcomes: seq<Result<(), ClientError>>, pauseEach: bool): (Result<(), ClientError>, nat, nat) {
    var (result, puts) := PutRun(outcomes, 0);
    var succeeded := if result.Success? then puts else puts - 1;
    (result, puts, if pauseEach then succeeded else 0)
  }

  /**
   * The puts made from the `k`-th on: all succeed but possibly the last; a
   * successful run reaches the last chunk, and a failure is the last put's own
   * error.
   */
  lemma {:induction false} PutRunCharacterized(outcomes: seq<Result<(), ClientError>>, k: nat)
    requires k <= |outcomes|
    ensures var (r, puts) := PutRun(outcomes, k);
      && (forall j | k <= j < k + puts && (r.Success? || j < k + puts - 1) :: outcomes[j].Success?)
      && (r.Success? ==> k + puts == |outcomes|)
      && (r.Failure? ==> outcomes[k + puts - 1] == r)
    decreases |outcomes| - k
  {
    if k < |outcomes| && outcomes[k].Success? {
      PutRunCharacterized(outcomes, k + 1);
    }
  }

  /** The number of chunks of 100 is the vector count divided by 100, rounded up. */
  lemma {:induction false} ChunkCount<T>(s: seq<T>)
    ensures |Chunks(s, MaxBatchSize)| == (|s| + MaxBatchSize - 1) / MaxBatchSize
    decreases |s|
  {
    if |s| > MaxBatchSize {
      ChunkCount(s[MaxBatchSize..]);
    }
  }

  /**
   * What a batch upload guarantees: it succeeds exactly when every vector is
   * valid and every chunk's put succeeds; an invalid vector stops it before any
   * put; a failed put is the last one made, after all earlier ones succeeded.
   */
  lemma BatchPutOutcomes(vectors: seq<Types.Vector>, expectedDimensions: nat, outcomes: seq<Result<(), ClientError>>)
    requires |outcomes| == |Chunks(vectors, MaxBatchSize)|
    ensures var (r, puts, pauses) := BatchPut(vectors, expectedDimensions, outcomes);
      && (r.Success? <==>
            && (forall i | 0 <= i < |vectors| :: Types.Validate(vectors[i], expectedDimensions).Success?)
            && (forall j | 0 <= j < |outcomes| :: outcomes[j].Success?))
      && (r.Failure? && r.error.InvalidVector? ==> puts == 0 && pauses == 0)
      && (r.Failure? && r.error.PutFailed? ==>
            && 1 <= puts <= |outcomes|
            && outcomes[puts - 1] == Failure(r.error.putError)
            && (forall j | 0 <= j < puts - 1 :: outcomes[j].Success?))
  {
    PutRunCharacterized(outcomes, 0);
  }

  /**
   * A batch upload makes at most one put per 100 vectors, rounded up, and
   * pauses after every successful put when there are more than 100 vectors.
   */
  lemma BatchPutCounts(vectors: seq<Types.Vector>, expectedDimensions: nat, outcomes: seq<Result<(), ClientError>>)
    requires |outcomes| == |Chunks(vectors, MaxBatchSize)|
    ensures var (r, puts, pauses) := BatchPut(vectors, expectedDimensions, outcomes);
      && puts <= (|vectors| + MaxBatchSize - 1) / MaxBatchSize
      && pauses == (if |vectors| > MaxBatchSize && r.Success? then puts
                    else if |vectors| > MaxBatchSize && puts > 0 then puts - 1 else 0)
  {
    ChunkCount(vectors);
  }

  /** The invariant of the upload loop: the first `k` puts succeeded. */
  ghost predicate Uploaded(outcomes: seq<Result<(), ClientError>>, k: nat)
  {
    && k <= |outcomes|
    && PutRun(outcomes, 0) == (PutRun(outcomes, k).0, k + PutRun(outcomes, k).1)
  }

  lemma PutSucceeded(outcomes: seq<Result<(), ClientError>>, k: nat)
    requires Uploaded(outcomes, k) && k < |outcomes| && outcomes[k].Success?
    ensures Uploaded(outcomes, k + 1)
  {
  }

  lemma PutFailedAt(outcomes: seq<Result<(), ClientError>>, k: nat, pauseEach: bool)
    requires Uploaded(outcomes, k) && k < |outcomes| && outcomes[k].Failure?
    ensures Uploads(outcomes, pauseEach) == (outcomes[k], k + 1, if pauseEach then k else 0)
  {
    assert PutRun(outcomes, 0) == (outcomes[k], k + 1);
  }

  lemma AllUploaded(outcomes: seq<Result<(), ClientError>>, pauseEach: bool)
    requires Uploaded(outcomes, |outcomes|)
    ensures Uploads(outcomes, pauseEach) == (Success(()), |outcomes|, if pauseEach then |outcomes| else 0)
  {
    assert PutRun(outcomes, 0) == (Success(()), |outcomes|);
  }

  /** One `put_vectors` call of the upload loop, on the `k`-th chunk. */
  method PutChunk(client: Client.S3VectorsClient, p: Primitives, bucketName: string, indexName: string,
                  chunks: seq<seq<Types.Vector>>, k: nat, encode: seq<Types.Vector> -> Result<seq<byte>, string>,
                  clock: nat -> nat -> Stamp, network: nat -> nat -> Exchange<()>, ghost outcomes: seq<Result<(), ClientError>>)
    returns (result: Result<(), ClientError>)
    requires k < |chunks| && outcomes == PutOutcomes(client, p, bucketName, indexName, chunks, encode, network)
    ensures result == outcomes[k]
  {
    var sleeps, sent;
    result, sleeps, sent := PutVectors(client, p, bucketName, indexName, chunks[k], encode(chunks[k]), clock(k), network(k));
  }

  /** The first loop of `batch_put_vectors`: validate every vector, stopping at the first invalid one. */
  method ValidateVectors(vectors: seq<Types.Vector>, expectedDimensions: nat) returns (invalid: Option<Types.VectorError>)
    ensures invalid == FirstInvalid(vectors, expectedDimensions)
  {
    for j := 0 to |vectors|
      invariant forall k | 0 <= k < j :: Types.Validate(vectors[k], expectedDimensions).Success?
    {
      var check := Types.Validate(vectors[j], expectedDimensions);
      if check.Failure? {
        FirstInvalidAt(vectors, expectedDimensions, j);
        return Some(check.error);
      }
    }
    return None;
  }

  /**
   * The second loop of `batch_put_vectors`: put the chunks in order, stopping
   * at the first failure, pausing after each successful put when `pauseEach`.
   */
  method UploadChunks(client: Client.S3VectorsClient, p: Primitives, bucketName: string, indexName: string,
                      chunks: seq<seq<Types.Vector>>, encode: seq<Types.Vector> -> Result<seq<byte>, string>,
                      clock: nat -> nat -> Stamp, network: nat -> nat -> Exchange<()>, pauseEach: bool)
    returns (r: Result<(), ClientError>, puts: nat, pauses: nat)
    ensures (r, puts, pauses) == Uploads(PutOutcomes(client, p, bucketName, indexName, chunks, encode, network), pauseEach)
  {
    ghost var outcomes := PutOutcomes(client, p, bucketName, indexName, chunks, encode, network);
    puts, pauses := 0, 0;
    while puts < |chunks|
      invariant Uploaded(outcomes, puts)
      invariant pauses == if pauseEach then puts else 0
    {
      r := PutChunk(client, p, bucketName, indexName, chunks, puts, encode, clock, network, outcomes);
      if r.Failure? {
        PutFailedAt(outcomes, puts, pauseEach);
        return r, puts + 1, pauses;
      }
      if pauseEach {
        pauses := pauses + 1;
      }
      PutSucceeded(outcomes, puts);
      puts := puts + 1;
    }
    AllUploaded(outcomes, pauseEach);
    return Success(()), puts, pauses;
  }

  /**
   * `batch_put_vectors`: validate every vector, then put the chunks of 100 in
   * order with `put_vectors`, pausing after each when there are more than 100
   * vectors. `clock(k)` and `network(k)` stand for the clock and the responses
   * during the `k`-th put.
   */
  method BatchPutVectors(client: Client.S3VectorsClient, p: Primitives, bucketName: string, indexName: string,
                         vectors: seq<Types.Vector>, expectedDimensions: nat,
                         encode: seq<Types.Vector> -> Result<seq<byte>, string>,
                         clock: nat -> nat -> Stamp, network: nat -> nat -> Exchange<()>)
    returns (r: Result<(), BatchError>, puts: nat, pauses: nat)
    ensures (r, puts, pauses)
      == BatchPut(vectors, expectedDimensions, PutOutcomes(client, p, bucketName, indexName, Chunks(vectors, MaxBatchSize), encode, network))
  {
    var invalid := ValidateVectors(vectors, expectedDimensions);
    if invalid.Some? {
      return Failure(InvalidVector(invalid.value)), 0, 0;
    }
    var result;
    result, puts, pauses := UploadChunks(client, p, bucketName, indexName, Chunks(vectors, MaxBatchSize), encode,
                                         clock, network, |vectors| > MaxBatchSize);
    r := if result.Success? then Success(()) else Failure(PutFailed(result.error));
  }

  // ----- Waiting for a bucket or an index -----

  const MaxPolls := 60

  datatype WaitError =
    | DescribeFailed(describeError: ClientError)
    | CreationFailed(failure: string)
    | TimedOut(timeout: string)

  /** What one poll decides: the describe call's error, the value once Active, an error once Failed, or nothing yet. */
  function PollDecision<T>(answer: Result<T, ClientError>, status: T -> Types.Status, failedMessage: string): (d: Option<Result<T, WaitError>>)
    ensures d.None? <==> answer.Success? && status(answer.value) != Types.Active && status(answer.value) != Types.Failed
    ensures answer.Failure? ==> d == Some(Failure(DescribeFailed(answer.error)))
    ensures answer.Success? && status(answer.value) == Types.Active ==> d == Some(Success(answer.value))
    ensures answer.Success? && status(answer.value) == Types.Failed ==> d == Some(Failure(CreationFailed(failedMessage)))
  {
    match answer
    case Failure(e) => Some(Failure(DescribeFailed(e)))
    case Success(v) =>
      match status(v)
      case Active => Some(Success(v))
      case Failed => Some(Failure(CreationFailed(failedMessage)))
      case _ => None
  }

  /**
   * The polls from the `k`-th on: the result and the number of one-second
   * pauses. `describe(k)` is the `k`-th describe call's answer.
   */
  function Poll<T>(describe: nat -> Result<T, ClientError>, status: T -> Types.Status,
                   failedMessage: string, timeoutMessage: string, k: nat): (r: (Result<T, WaitError>, nat))
    requires k <= MaxPolls
    ensures k + r.1 <= MaxPolls
    decreases MaxPolls - k
  {
    if k == MaxPolls then (Failure(TimedOut(timeoutMessage)), 0)
    else match PollDecision(describe(k), status, failedMessage)
      case Some(result) => (result, 0)
      case None =>
        var rest := Poll(describe, status, failedMessage, timeoutMessage, k + 1);
        (rest.0, rest.1 + 1)
  }

  /**
   * What polling guarantees: every poll that was followed by a pause found a
   * status other than Active and Failed; it times out exactly after 60 such
   * polls; otherwise the last poll decides, Active giving the described value.
   */
  lemma {:induction false} PollCharacterized<T>(describe: nat -> Result<T, ClientError>, status: T -> Types.Status,
                                                failedMessage: string, timeoutMessage: string, k: nat)
    requires k <= MaxPolls
    ensures var (r, pauses) := Poll(describe, status, failedMessage, timeoutMessage, k);
      && (forall j | k <= j < k + pauses ::
            describe(j).Success? && status(describe(j).value) != Types.Active && status(describe(j).value) != Types.Failed)
      && (r == Failure(TimedOut(timeoutMessage)) <==> k + pauses == MaxPolls)
      && (k + pauses < MaxPolls ==>
            var last := describe(k + pauses);
            && (last.Failure? ==> r == Failure(DescribeFailed(last.error)))
            && (last.Success? && status(last.value) == Types.Active ==> r == Success(last.value))
            && (last.Success? && status(last.value) == Types.Failed ==> r == Failure(CreationFailed(failedMessage)))
            && (last.Success? ==> status(last.value) == Types.Active || status(last.value) == Types.Failed))
    decreases MaxPolls - k
  {
    if k < MaxPolls {
      PollCharacterized(describe, status, failedMessage, timeoutMessage, k + 1);
    }
  }

  /** The loop invariant of the wait loop: the first `k` polls decided nothing. */
  ghost predicate PollProgress<T>(describe: nat -> Result<T, ClientError>, status: T -> Types.Status,
                                  failedMessage: string, timeoutMessage: string, k: nat)
  {
    && k <= MaxPolls
    && Poll(describe, status, failedMessage, timeoutMessage, 0)
       == (Poll(describe, status, failedMessage, timeoutMessage, k).0,
           k + Poll(describe, status, failedMessage, timeoutMessage, k).1)
  }

  /** A poll that decides nothing adds one pause to the polls after it. */
  lemma PollPause<T>(describe: nat -> Result<T, ClientError>, status: T -> Types.Status,
                     failedMessage: string, timeoutMessage: string, k: nat)
    requires k < MaxPolls && PollProgress(describe, status, failedMessage, timeoutMessage, k)
    requires PollDecision(describe(k), status, failedMessage).None?
    ensures PollProgress(describe, status, failedMessage, timeoutMessage, k + 1)
  {
  }

  /** A poll that decides ends the polling with its decision. */
  lemma PollDecided<T>(describe: nat -> Result<T, ClientError>, status: T -> Types.Status,
                       failedMessage: string, timeoutMessage: string, k: nat)
    requires k < MaxPolls && PollProgress(describe, status, failedMessage, timeoutMessage, k)
    requires PollDecision(describe(k), status, failedMessage).Some?
    ensures Poll(describe, status, failedMessage, timeoutMessage, 0)
      == (PollDecision(describe(k), status, failedMessage).value, k)
  {
  }

  /** After 60 undecided polls, the wait times out. */
  lemma PollExhausted<T>(describe: nat -> Result<T, ClientError>, status: T -> Types.Status,
                         failedMessage: string, timeoutMessage: string)
    requires PollProgress(describe, status, failedMessage, timeoutMessage, MaxPolls)
    ensures Poll(describe, status, failedMessage, timeoutMessage, 0) == (Failure(TimedOut(timeoutMessage)), MaxPolls)
  {
  }

  /** A wait loop of at most 60 polls, pausing one second after each poll that did not decide. */
  method WaitForActive<T>(describe: nat -> Result<T, ClientError>, status: T -> Types.Status,
                          failedMessage: string, timeoutMessage: string)
    returns (r: Result<T, WaitError>, pauses: nat)
    ensures (r, pauses) == Poll(describe, status, failedMessage, timeoutMessage, 0)
  {
    pauses := 0;
    for attempt := 0 to MaxPolls
      invariant pauses == attempt
      invariant PollProgress(describe, status, failedMessage, timeoutMessage, attempt)
    {
      var decided := PollDecision(describe(attempt), status, failedMessage);
      if decided.Some? {
        PollDecided(describe, status, failedMessage, timeoutMessage, attempt);
        return decided.value, pauses;
      }
      PollPause(describe, status, failedMessage, timeoutMessage, attempt);
      pauses := pauses + 1;
    }
    PollExhausted(describe, status, failedMessage, timeoutMessage);
    return Failure(TimedOut(timeoutMessage)), pauses;
  }

  /** `wait_for_bucket_active`: polls `describe_vector_bucket`. */
  method WaitForBucketActive<T>(describe: nat -> Result<T, ClientError>, status: T -> Types.Status)
    returns (r: Result<T, WaitError>, pauses: nat)
    ensures (r, pauses) == Poll(describe, status, "Bucket creation failed", "Timeout waiting for bucket to become active", 0)
  {
    r, pauses := WaitForActive(describe, status, "Bucket creation failed", "Timeout waiting for bucket to become active");
  }

  /** `wait_for_index_active`: polls `describe_index`. */
  method WaitForIndexActive<T>(describe: nat -> Result<T, ClientError>, status: T -> Types.Status)
    returns (r: Result<T, WaitError>, pauses: nat)
    ensures (r, pauses) == Poll(describe, status, "Index creation failed", "Timeout waiting for index to become active", 0)
  {
    r, pauses := WaitForActive(describe, status, "Index creation failed", "Timeout waiting for index to become active");
  }
}
