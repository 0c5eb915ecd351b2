# s3-vectors-rs core, modelled in Dafny

This project models the deterministic parts of `s3-vectors-rs`, a Rust client and command-line tool for the Amazon S3 Vectors service. It proves what those parts promise. The modelled parts are:

- **`Auth`** (`src/auth.rs`): the AWS Signature Version 4 signer. It builds the canonical header block and the signed-header list from a header map. It also builds the canonical request, the credential scope, the string to sign, the HMAC key chain and the `Authorization` header. `sign_request` is a method that inserts headers one by one into a map.
- **`Deploy`** (`src/deploy.rs`): the request executor. It is a retry loop with one shared retry counter and a backoff that starts at 100 ms, doubles, and is capped at 5000 ms. It classifies statuses and error bodies. The file also covers:
  - the name and batch-size prechecks of `put_vectors`, `get_vectors` and `delete_vectors`;
  - `batch_put_vectors`, which validates everything and then uploads chunks of 100;
  - the 60-poll `wait_for_*_active` loops.
- **`Validators`** (`src/validation.rs`): the bucket-name, index-name, dimension, top-k and region checks.
- **`Document`** (`src/document.rs`): the word-window chunker, `chunk_document` with its 500-byte preview cut at a UTF-8 character boundary, and `extract_title`.
- **`Interactive`** (`src/cli/interactive.rs`): the quote-aware tokenizer `parse_command_args`, and the special-input dispatch of the shell loop `run`.
- **`Client`** (`src/lib.rs`): the client constructors, and the INI parser of the credentials file.
- **`Init`** (`src/cli/init.rs`):
  - the access-key and session-token prompt checks;
  - the rewriting of `~/.aws/credentials` and `~/.aws/config`, which removes the old section and appends the new block;
  - the profile listing.
- **`Types`** (`src/types.rs`): `Vector::validate`, the `Default` implementations and `default_true`.
- **`Configuration`** (`src/config.rs`): `has_credentials`, the fallback configuration, the default region and the redacting `Debug` output.
- **`IndexCli`** (`src/cli/index.rs`): the prefix filter and the keyword filter of `index list`, and the `--metric` conversion.

The project also has three helper modules:

- `Wrappers` provides `Option` and `Result`.
- `Text` holds the string functions of Rust's standard library that the code uses. These are `trim`, `lines`, `split`, `split_once`, `split_whitespace`, `find`, `join`, ASCII lower-casing, decimal formatting, UTF-8 lengths and encoding, and lower-case hex.
- `LexOrder` is the byte-wise ordering of `String`, which `Vec::sort` uses. It comes with a sort that is specified as sorted and a permutation, and a proof that a sorted permutation is unique.

## How the model is organised

- **Where the code changes state step by step, the model is imperative.**
  - The canonicalisers iterate over the header map in an order the model does not fix. The key is picked with `:|`. The result is proved equal to a function of the map alone.
  - `sign_request` inserts header by header.
  - The retry loop, the batch loops, the polling loops, the tokenizer, the chunker, the preview search, the section rewrite, the profile listing, the credentials parser and the `retain` filters are all `while`/`for` loops. Each carries its invariants.
  - Each such method's postcondition ties its result to a specification function. Lemmas then state what the source promises about that function.
- **Cryptography and URL parsing are parameters.** SHA-256, HMAC-SHA256 and URL parsing are function-valued fields of a `Primitives` record.
- **Time is a parameter.** The clock becomes a `Stamp` parameter holding the date and the time.
- **Network answers are inputs.** They are a function from the attempt number to an `Exchange`, which is a send failure or a received status with its optional decoded bodies. Sleeps are returned as a log of the backoff values.
- **Files are strings.** File contents are passed in and returned as strings.

The model keeps the following behaviours of the code:

- A transport failure ends the call at once, without a retry (`src/deploy.rs:91`).
- Every 409 whose error body decodes becomes `AlreadyExists`, whatever its error-type tag (`src/deploy.rs:107-109`).
- An error body that does not decode ends the call at once, even for 429 or 5xx (`src/deploy.rs:134-137`).
- The canonical request uses the URL path as given, without URI encoding (`src/auth.rs:66`).
- The canonical request always has an empty query string (`src/auth.rs:76`).
- Header values are trimmed, but their inner whitespace is not collapsed (`src/auth.rs:108`).

## Model

The table names, for each part of the code, the member whose contract states what that part promises. The pure building blocks with no contract of their own (`Auth.CanonicalRequest`, `Auth.CredentialScope`, `Auth.StringToSign`, `Auth.CalculateSignature`, `Auth.AuthorizationHeader`, `Configuration.HasCredentials` and `Deploy.SignFailureMessage`) appear through the rows of the members whose contracts use them: the signing functions in `Auth.CanonicalRequestLines`, `Auth.SignatureOverSentHeaders` and `Auth.SignRequest`, `has_credentials` in `Client.FromEnv` and `Client.FromEnvWithRegion`, and the sign-failure message in `Deploy.SendFailure` and `Deploy.PrepareRequest`.

| member | source | states |
|---|---|---|
| Auth.HostHeader | src/auth.rs:43-50 | a URL without a host is an error (`NoHost`); otherwise the host, followed by `:port` exactly when the URL reports a port |
| Auth.CanonicalLinesSpec | src/auth.rs:104-112 | the canonical lines are sorted, one per header, each `lowercase(name):trim(value)`, and every line comes from a header |
| Auth.SignedNamesSpec | src/auth.rs:114-121 | the signed names are sorted, one per header, each the lower-cased name of a header, with no upper-case ASCII letter |
| Auth.HeaderOrderIrrelevant | src/auth.rs:104-121 | for every order in which the map can be iterated, sorting the collected lines and names gives the same block and the same list; the result depends on the map alone |
| Auth.CollectSorted | src/auth.rs:105-110 | the loop over the map, in whatever order it yields entries, followed by the sort, gives the sorted enumeration of the map |
| Auth.CreateCanonicalHeaders | src/auth.rs:104-112 | the block is the sorted canonical lines joined with "\n", plus a final "\n" |
| Auth.GetSignedHeaders | src/auth.rs:114-121 | the list is the sorted lower-cased names joined with ";" |
| Auth.CanonicalRequestLines | src/auth.rs:72-80 | split at "\n", the canonical request is the method, the path, an empty query line, one line per header, a blank line, the signed-header list and the payload hash |
| Auth.CredentialScopeComponents | src/auth.rs:84 | split at "/", the scope is exactly date, region, "s3vectors", "aws4_request" |
| Auth.StringToSignLines | src/auth.rs:85-88 | split at "\n", the string to sign is "AWS4-HMAC-SHA256", the time stamp, the scope and the hex digest of the canonical request |
| Auth.SigningKeyFollowsScope | src/auth.rs:123-132 | the signature is hex(HMAC(key, string to sign)), where the key is "AWS4"+secret chained through the four components of the credential scope, in order |
| Auth.DeriveFour | src/auth.rs:125-128 | chaining four components applies HMAC four times, in order: date, region, service, terminator |
| Auth.ServiceLiteralBytes | src/auth.rs:127 | the byte literal `b"s3vectors"` is the UTF-8 encoding of the service name in the scope |
| Auth.TerminatorLiteralBytes | src/auth.rs:128 | the byte literal `b"aws4_request"` is the UTF-8 encoding of the terminator in the scope |
| Auth.AuthorizationHeaderFields | src/auth.rs:94-97 | split at spaces, the header is the algorithm, `Credential=<key id>/<scope>,`, `SignedHeaders=<list>,` and `Signature=<hex>` |
| Auth.HeadersToSignShape | src/auth.rs:53-63 | after the inserts, host, date, payload hash and authorization are present, and host, date and payload hash carry the URL's host header, the time stamp and the hash; the token header is present iff a session token is configured (or the caller sent one), and then carries the token; caller headers not overwritten are kept, and nothing else is added |
| Auth.SignedRequestHeadersShape | src/auth.rs:31-102 | signing fails exactly when the URL does not parse or has no host; otherwise the returned map is well signed, as in HeadersToSignShape |
| Auth.SignatureOverSentHeaders | src/auth.rs:65-99 | with no caller `authorization` header, the returned `authorization` value is the signature over the rest of the returned map: its canonical block, its signed-header list and its `x-amz-content-sha256` value, for the URL's path, under the credential scope of the date and region |
| Auth.SignRequest | src/auth.rs:31-102 | the method, with its successive inserts, returns exactly the specified header map: the same canonical block and signed list go into the request and the header, and the payload hash in the request equals the `x-amz-content-sha256` value |
| LexOrder.LessIrreflexive | src/auth.rs:110 | the `String` order used by `sort` is irreflexive |
| LexOrder.LessTransitive | src/auth.rs:110 | the `String` order is transitive |
| LexOrder.LessTotal | src/auth.rs:110 | any two distinct strings are ordered one way or the other |
| LexOrder.LessAsymmetric | src/auth.rs:110 | the order is asymmetric |
| LexOrder.Insert | src/auth.rs:110 | inserting into a sorted sequence keeps it sorted and adds exactly the element |
| LexOrder.SortLex | src/auth.rs:110 | the sort's result is sorted and a permutation of its input |
| LexOrder.SortedUnique | src/auth.rs:119 | two sorted permutations of the same strings are equal, so the sort's result does not depend on the input order |
| LexOrder.SortPermutationInvariant | src/auth.rs:110 | permuting the input of the sort does not change its output |
| Validators.ValidateBucketName | src/validation.rs:4-33 | a bucket name is accepted iff it is 3 to 63 bytes long, uses only `a-z`, `0-9` and `-`, does not start or end with `-`, does not start with `xn--` and does not end with `-s3alias`; the length error is reported iff the length is wrong; the ".." error is never reported |
| Validators.ConsecutivePeriodsUnreachable | src/validation.rs:9-30 | a name that passes the charset check cannot contain "..", so that check can never fire |
| Validators.ValidBucketNameBytes | src/validation.rs:4-33 | an accepted bucket name has 3 to 63 bytes and contains no '.' |
| Validators.BucketCharsAreAscii | src/validation.rs:5-14 | for a name made of allowed characters, the byte length equals the character count |
| Validators.IndexCharsAreAscii | src/validation.rs:37-46 | the same for index names |
| Validators.ValidateIndexName | src/validation.rs:36-49 | an index name is accepted iff it is 1 to 255 characters long and every character is alphanumeric, '-' or '_'; the length error and the charset error are each reported iff their check fails first |
| Validators.ValidateDimensions | src/validation.rs:52-57 | accepted iff 1 <= dimensions <= 4096 |
| Validators.ValidateTopK | src/validation.rs:60-65 | accepted iff 1 <= top_k <= 30 |
| Validators.ValidateRegion | src/validation.rs:68-84 | accepted iff the region is "us-east-1" or "us-west-2" |
| Validators.BucketNamesAccepted | src/validation.rs:91-94 | the test's valid bucket names are accepted |
| Validators.BucketNamesRejected | src/validation.rs:95-100 | the test's invalid bucket names, including "bucket..name", are rejected |
| Validators.IndexNamesAccepted | src/validation.rs:104-107 | the test's valid index names are accepted |
| Validators.IndexNamesRejected | src/validation.rs:108-111 | the test's empty, over-long and space-containing index names are rejected |
| Types.DefaultDataType | src/types.rs:28-32 | the default data type is Float32 |
| Types.DefaultDistanceMetric | src/types.rs:41-45 | the default metric is Cosine |
| Types.DefaultTrue | src/types.rs:376-378 | the default is true |
| Types.FirstNonFinite | src/types.rs:250-257 | the first NaN or infinite element at or after a position, with every earlier element finite |
| Types.Validate | src/types.rs:240-267 | Ok iff the length equals the expected dimension, every element is finite and the metadata, if any, is at most 40960 bytes; a wrong length is reported first; otherwise the first non-finite element is reported with its index and kind; then the metadata size |
| Configuration.DefaultRegion | src/config.rs:45-47 | the default region is "us-east-1", a supported region |
| Configuration.GetConfig | src/config.rs:56-66 | a loaded configuration is returned as loaded; on a load error, region "us-east-1" and no credentials, so `has_credentials` is false |
| Configuration.RedactedField | src/config.rs:20-34 | an absent field prints as `None`; a present one prints as `Some("***REDACTED***")`, whatever its value |
| Configuration.DebugHidesCredentials | src/config.rs:16-37 | two configurations with the same region and the same presence of each credential field print identically, so no credential value reaches the output |
| Configuration.DebugShowsRegion | src/config.rs:18-19 | the output starts with `Config { aws_region: ` followed by the region, shown as-is |
| Client.New | src/lib.rs:56-62 | the client stores the region and the endpoint `https://s3vectors.<region>.api.aws`, and has no signer |
| Client.WithCredentials | src/lib.rs:77-93 | the client stores the region and its endpoint, and has a signer with exactly the given credentials and region |
| Client.SignerFromConfig | src/lib.rs:100-118 | there is a signer iff `has_credentials` (key id and secret both present; the token does not matter); it carries the configured key id, secret and optional token |
| Client.FromEnv | src/lib.rs:96-125 | always succeeds; region and endpoint come from the configuration (or its fallback); there is a signer iff the configuration has credentials, and it carries the configured access key, secret key and session token and the client's region |
| Client.FromEnvWithRegion | src/lib.rs:151-182 | as FromEnv, except that the override region, when given, replaces the configured one, both in the client and in its signer |
| Client.FromEnvWithoutOverride | src/lib.rs:151-182 | with no override, the result is the same as `from_env` |
| Client.ScanSection | src/lib.rs:204-213 | after scanning, the current profile is the name in the last `[...]` header line, if any |
| Client.ScanCredentials | src/lib.rs:204-224 | a key is recorded iff some line assigns it inside a section of the requested profile (after trimming, split at the first '='; blank, '#' and header-less lines ignored); its value is the trimmed value of the last such line, so later keys override earlier ones and repeated sections merge |
| Client.LastLineEffect | src/lib.rs:214-222 | one more line either assigns the key (when it is an assignment in the requested profile), overwriting the old value, or leaves the recorded value as it was |
| Client.ParseCredentialsLines | src/lib.rs:201-240 | the line loop returns what CredentialsFrom makes of the map the scan specifies |
| Client.CredentialsFrom | src/lib.rs:226-240 | success iff both `aws_access_key_id` and `aws_secret_access_key` were recorded; the token is present iff `aws_session_token` was recorded; the values are the recorded ones |
| Client.ParseCredentialsFile | src/lib.rs:193-241 | the parse of a file's contents is that of its lines |
| Client.FromProfile | src/lib.rs:128-148 | with no credentials file, an error; otherwise success iff the profile parses, and then a client with those credentials and the given region |
| Deploy.Classify | src/deploy.rs:91-137 | an outcome is retried iff it is retryable (a decodable 429 or 5xx) and fewer than 3 retries were made |
| Deploy.ClassifyOutcomes | src/deploy.rs:91-137 | a send failure ends the call with that error and no retry; 2xx gives the parsed body (or a parse error); decodable 404 gives NotFound(message) and 409 gives AlreadyExists(message); an undecodable error body gives ServiceError("Request failed with status ...") with no retry; when retries are exhausted, 429 gives RateLimit(current backoff) and 5xx gives ServiceError(message) |
| Deploy.NextBackoff | src/deploy.rs:115 | doubling is capped at 5000 |
| Deploy.Backoff | src/deploy.rs:14-16 | the backoff before any retry is positive and at most 5000 |
| Deploy.BackoffClosedForm | src/deploy.rs:111-127 | after n retries the backoff is min(100 * 2^n, 5000), shared by the 429 and 5xx paths |
| Deploy.BackoffValues | src/deploy.rs:14-16 | the backoffs are 100, 200, 400 and 800 |
| Deploy.Attempts | src/deploy.rs:61-138 | at most 3 sleeps are logged, and the i-th sleep is the backoff after i retries |
| Deploy.AttemptsCharacterized | src/deploy.rs:61-138 | every attempt before the last one was retryable, the number of retries is at most 3, and the result is the classification of the last attempt |
| Deploy.RetriesExhausted | src/deploy.rs:111-127 | when every answer is retryable, the sleeps are 100, 200 and 400, and the fourth answer gives RateLimit(800) for 429 or ServiceError for 5xx |
| Deploy.FirstAttemptFinal | src/deploy.rs:94-137 | a non-retryable first answer ends the call with no sleep |
| Deploy.SendFailure | src/deploy.rs:58-82 | nothing is sent iff there is no signer (AuthRequired), the body fails to serialise (JsonError) or signing fails ("Failed to parse URL" for a URL that does not parse, "URL has no host" for one without a host) |
| Deploy.Execute | src/deploy.rs:50-139 | when nothing can be sent, the failure comes with no sleep; otherwise the result is the retry loop |
| Deploy.ExecuteRequest | src/deploy.rs:50-139 | the loop returns Execute's result and sleeps; it signs afresh for each attempt, and every request sent carries, for that attempt's stamp, the URL's host header, the time stamp, the payload hash, the session token exactly when there is one, an authorization header and the JSON content type, and nothing else |
| Deploy.ContentTypeAfterSigning | src/deploy.rs:77-88 | the content type is added after signing, so it is not among the signed headers |
| Deploy.SignAttempt | src/deploy.rs:77-88 | signing fails exactly when the URL does not parse or has no host; otherwise the headers are exactly the map `sign_request` returns for the attempt's method, URL, empty header map, payload and stamp, plus the JSON content type |
| Deploy.PreparedSignature | src/deploy.rs:77-88 | the authorization value of an attempt's headers is the signature over the other headers (leaving out the content type): their canonical block, their signed list and their payload hash, for the URL's path, under the date and region scope |
| Deploy.PreparedIsSent | src/deploy.rs:77-88 | an attempt's exact headers have the shape SentFor states, with the URL's host as the host value |
| Deploy.PrepareRequest | src/deploy.rs:58-88 | one attempt's request: it fails exactly as SendFailure says; otherwise its headers are SignAttempt's, and carry the host, date, payload hash, token, authorization and content type that SentFor states |
| Deploy.CheckNames | src/deploy.rs:276-279 | no error iff both names are valid; a bad bucket name is reported before the index name |
| Deploy.PutVectorsCheck | src/deploy.rs:276-291 | no error iff the names are valid and 1 to 100 vectors are given; "No vectors provided" for none, and "Batch size N exceeds maximum of 100" above 100 |
| Deploy.KeysCheck | src/deploy.rs:306-314 | no error iff the names are valid and at least one key is given; "No keys provided" otherwise (the same check opens `delete_vectors`, lines 327-335) |
| Deploy.VectorsPathSegments | src/deploy.rs:298-299 | the path is `/v1/vectorbuckets/<bucket>/indexes/<index>/vectors` |
| Deploy.VectorsPathNamesTarget | src/deploy.rs:276-299 | for valid names, split at "/", the path gives back exactly the bucket and the index as separate segments |
| Deploy.PutVectors | src/deploy.rs:275-304 | a failed precheck returns its error with nothing sent and no sleep; otherwise the request goes through the executor on the vectors path |
| Deploy.GetVectors | src/deploy.rs:306-325 | the same, for the `/get` path and key lists |
| Deploy.DeleteVectors | src/deploy.rs:327-346 | the same, for the `/delete` path |
| Deploy.Chunks | src/deploy.rs:448 | the chunks concatenate to the input; each has 1 to 100 elements; all but the last have exactly 100 |
| Deploy.ChunkCount | src/deploy.rs:448 | there are ceil(n / 100) chunks |
| Deploy.FirstInvalid | src/deploy.rs:443-445 | none iff every vector validates; otherwise the error of the first vector that fails |
| Deploy.FirstInvalidAt | src/deploy.rs:443-445 | the first failing vector's error is the one reported |
| Deploy.PutRun | src/deploy.rs:448-461 | uploads stop at the first failure, and a failure is reported only after at least one upload |
| Deploy.PutRunCharacterized | src/deploy.rs:448-461 | every chunk uploaded before the reported one succeeded; success means all chunks were uploaded; a failure is the outcome of the last chunk attempted |
| Deploy.BatchPutOutcomes | src/deploy.rs:435-465 | success iff every vector validates and every chunk upload succeeds; an invalid vector means nothing was uploaded and no pause taken; a failed upload is the first failing chunk, after the successful ones before it |
| Deploy.BatchPutCounts | src/deploy.rs:448-461 | at most ceil(n / 100) uploads; pauses only when there is more than one chunk (n > 100), one after each successful upload |
| Deploy.ValidateVectors | src/deploy.rs:443-445 | the validation loop returns the error of the first invalid vector, if any |
| Deploy.PutChunk | src/deploy.rs:449-457 | one chunk's upload returns that chunk's outcome |
| Deploy.UploadChunks | src/deploy.rs:448-461 | the upload loop returns the specified result, upload count and pause count |
| Deploy.BatchPutVectors | src/deploy.rs:435-465 | validation then chunked upload, as BatchPut specifies |
| Deploy.PollDecision | src/deploy.rs:473-487 | a describe error ends the wait with that error (the index wait, at lines 499-513, decides alike); Active returns the resource; Failed ends with "... creation failed"; any other status keeps polling |
| Deploy.Poll | src/deploy.rs:472-489 | at most 60 polls |
| Deploy.PollCharacterized | src/deploy.rs:467-515 | every pause followed a pending status; the wait times out iff all 60 polls were pending; otherwise the result is the decision on the last poll |
| Deploy.WaitForActive | src/deploy.rs:467-515 | the polling loop returns the specified result and pause count |
| Deploy.WaitForBucketActive | src/deploy.rs:467-490 | the bucket wait, with its own failure and timeout messages |
| Deploy.WaitForIndexActive | src/deploy.rs:492-515 | the index wait, with its own failure and timeout messages |
| Document.DefaultConfig | src/document.rs:42-49 | defaults 512 / 50 / 100, with overlap below size |
| Document.ChunkTextShape | src/document.rs:159-186 | a text of at most chunk_size words is one chunk equal to the text unchanged; otherwise every chunk is the space-join of a contiguous window of min_chunk_size to chunk_size words |
| Document.WindowsAreWindows | src/document.rs:170-183 | every chunk produced by the loop begun at `start` is the window at a start the loop visits (`start` plus a whole number of steps), and has at least min_chunk_size words |
| Document.ChunkIsWordWindow | src/document.rs:171-176 | such a chunk is the space-join of words [s, e), has e - s words, and e - s lies between min_chunk_size and chunk_size |
| Document.WindowsNoneTooShort | src/document.rs:174-176 | when min_chunk_size exceeds chunk_size, every window is dropped |
| Document.WindowsConsecutive | src/document.rs:170-183 | when the first window is long enough it is emitted first; the next starts chunk_size - overlap words later; consecutive chunks are successive windows |
| Document.WindowPairOverlap | src/document.rs:178 | successive windows share their common words, and two full windows share exactly chunk_overlap words |
| Document.DefaultChunksOverlap | src/document.rs:258-279 | under the defaults, the first chunk is words 0 to 511; a second chunk exists exactly when the text has at least 562 words (so for the test's 1000 words), and it is words 462 to 973 (or to the end) |
| Document.SplitTextIntoChunks | src/document.rs:159-186 | the loop returns the specified chunks |
| Document.WindowsStep | src/document.rs:170-183 | one loop step emits the current window if it is long enough, and stops once start + min_chunk_size exceeds the word count |
| Document.FittingChars | src/document.rs:117-123 | the longest character prefix whose UTF-8 length fits the budget |
| Document.PrefixIsBoundary | src/document.rs:120 | the byte length of every character prefix is a character boundary |
| Document.Preview | src/document.rs:117-126 | at most 500 bytes: the content itself; otherwise a proper prefix of at most 500 bytes, ending at the last character boundary at or before 500, followed by "..." |
| Document.ContentPreview | src/document.rs:117-126 | the boundary search loop, going down from 500, yields Preview |
| Document.PreviewIsLastBoundary | src/document.rs:119-122 | the boundary where the search stops is the end of the longest fitting prefix |
| Document.ChunkIdsDistinct | src/document.rs:140 | different chunk indices give different ids |
| Document.ChunkRecordFields | src/document.rs:128-145 | the record has id `<doc>-chunk-<i>`, the document id, the chunk text, index i, the total count, the document's path, title, type and date, and a preview of at most 503 bytes, which equals the text when the text fits |
| Document.ChunkDocument | src/document.rs:109-156 | one record per chunk, in order, each with its index and the total number of chunks |
| Document.HeadingTitle | src/document.rs:222-225 | a match means '#', whitespace, and a non-empty rest of the line after the whitespace |
| Document.HeadingTitleOf | src/document.rs:222-225 | `# ` followed by a title not starting with whitespace yields that title |
| Document.NotHeading | src/document.rs:222-225 | a line not starting with '#' plus whitespace is not a heading |
| Document.NonBlank | src/document.rs:232-233 | a line is picked iff its trimmed text is non-empty, and the title is that trimmed text |
| Document.FindMapFinds | src/document.rs:223-233 | the search returns the first line's answer, and none iff no line has one |
| Document.ExtractTitleSpec | src/document.rs:220-234 | the title is that of the first heading line; failing that, the first non-blank line, trimmed; none iff every line is blank |
| Interactive.ParseCommandArgs | src/cli/interactive.rs:334-382 | the character loop returns the fold of the tokenizer step over the input, then the last argument and the unclosed-quote check |
| Interactive.ArgsNonEmpty | src/cli/interactive.rs:359-374 | no returned argument is empty |
| Interactive.ParseUnquoted | src/cli/interactive.rs:359-367 | without quotes, the arguments are the non-empty pieces between single spaces; backslashes and tabs are ordinary characters |
| Interactive.QuotedSpan | src/cli/interactive.rs:355-358 | a quoted span, spaces included, is one argument without its quotes |
| Interactive.EscapedQuote | src/cli/interactive.rs:342-354 | inside quotes, `\"` is kept as written and does not close the quote |
| Interactive.UnclosedQuoteFails | src/cli/interactive.rs:376-379 | an input with a single '"' is an unclosed-quote error |
| Interactive.QuotesRemoved | src/cli/interactive.rs:355-358 | without backslashes, no argument contains '"' |
| Interactive.QuotesOnlyEscaped | src/cli/interactive.rs:342-358 | on every input, a '"' in a returned argument always comes right after a '\\' |
| Interactive.JoinedWords | src/cli/interactive.rs:474-478 | plain words joined with spaces parse back to those words |
| Interactive.QuotedAfterWords | src/cli/interactive.rs:480-494 | words followed by a quoted span parse to the words plus the span's text |
| Interactive.EscapeQuotedText | src/cli/interactive.rs:496-503 | backslash escapes keep a quoted span a single argument |
| Interactive.PlainCommand | src/cli/interactive.rs:475-478 | "s3-vectors bucket list" parses to its three words |
| Interactive.UnclosedCommand | src/cli/interactive.rs:505-507 | the test's unclosed-quote command is rejected |
| Interactive.DispatchLineSpec | src/cli/interactive.rs:50-87 | "" skips; exit, quit, /exit and /quit end the loop; help, /help and ? show help; clear and /clear clear; init is special; exactly the other lines are executed as commands, unchanged |
| Interactive.DispatchSpec | src/cli/interactive.rs:47-87 | only the trimmed input matters, and it is executed iff it is none of the special inputs |
| Init.AccessKeyCheck | src/cli/init.rs:83-89 | accepted iff the input starts with "AKIA" and is 20 bytes long |
| Init.AccessKeyAscii | src/cli/init.rs:84 | for ASCII input: 20 characters whose first four are "AKIA" |
| Init.SessionTokenAnswer | src/cli/init.rs:97-107 | an empty answer gives no token; any other answer is the token |
| Init.SectionEnd | src/cli/init.rs:330-333 | the end is the first "\n[" at or after the start, or the end of the content |
| Init.RemoveSection | src/cli/init.rs:327-335 | content without the header is unchanged; otherwise only the text from the header's first occurrence up to (not including) the next "\n[" is removed, and everything else is kept |
| Init.Terminated | src/cli/init.rs:337-340 | a newline is added iff the content is non-empty and does not end in one |
| Init.ConfigHeader | src/cli/init.rs:369-373 | `[default]` for "default", `[profile <name>]` otherwise |
| Init.LinesUnlines | src/cli/init.rs:342-348 | the written lines read back as the same lines |
| Init.WriteLines | src/cli/init.rs:342-348 | the writeln! sequence appends each line with its newline |
| Init.ReplaceSection | src/cli/init.rs:327-348 | the in-place edit is removal, optional newline, then the block |
| Init.SaveToAwsCredentials | src/cli/init.rs:302-394 | both files are rewritten by ReplaceSection: the credentials file gets the header, key id, secret, optional token and a blank line; the config file gets its header, `region = ...` and a blank line |
| Init.SavedCredentialsParse | src/cli/init.rs:327-348 | reading the saved credentials file back for that profile with the parser of src/lib.rs gives the written key id and secret, and the written token when one was written |
| Init.SavedConfigLines | src/cli/init.rs:376-391 | the saved config file's lines are the kept lines, then the header, `region = <region>` and a blank line |
| Init.ProfileOf | src/cli/init.rs:442-445 | a line names a profile iff its trimmed text is bracketed |
| Init.ListAwsProfiles | src/cli/init.rs:437-450 | the loop returns the inner text of every trimmed bracketed line, in file order, duplicates kept |
| Init.ProfilesAppend | src/cli/init.rs:441-447 | the profiles of concatenated lines are concatenated |
| Init.ProfilesOne | src/cli/init.rs:442-445 | a single line lists its name iff it is a header |
| Init.SavedProfilesListed | src/cli/init.rs:437-450 | after saving, the listed profiles are those of the kept text followed by the saved profile |
| IndexCli.ToDistanceMetric | src/cli/index.rs:78-85 | each argument maps to the metric of the same name |
| IndexCli.MetricRoundTrip | src/cli/index.rs:73-85 | the conversion is a bijection |
| IndexCli.DefaultMetricAgrees | src/cli/index.rs:28 | the default `--metric` (cosine) is the library's default metric |
| IndexCli.Retain | src/cli/index.rs:177-196 | `retain` keeps, in order, exactly the elements that pass the test |
| IndexCli.FilterMembers | src/cli/index.rs:174-196 | an element is kept iff it was present and passes |
| IndexCli.FilterSubsequence | src/cli/index.rs:174-196 | the result is an order-preserving subsequence of the input |
| IndexCli.FilterTwice | src/cli/index.rs:177-196 | two successive `retain`s keep what passes both tests |
| IndexCli.Keywords | src/cli/index.rs:190-191 | the keywords are non-empty and contain no whitespace |
| IndexCli.FilterIndexes | src/cli/index.rs:174-230 | the shown indexes are those passing the prefix test (when given) and the keyword test (when given), in order; the continuation token is unchanged |
| IndexCli.FilteredIndexes | src/cli/index.rs:174-196 | an index is shown iff it is in the response and selected, and the shown list is a subsequence of the response |
| IndexCli.BlankQueryRemovesAll | src/cli/index.rs:191-196 | a whitespace-only query has no keywords and removes every index |
| IndexCli.QueryCaseInsensitive | src/cli/index.rs:190 | matching does not depend on the case of ASCII letters in the query |

## Left out

- SHA-256, HMAC-SHA256 and `url::Url` parsing are not modelled. They are function-valued parameters (`Primitives`). Hex and UTF-8 encoding are modelled exactly. An HMAC key error (`new_from_slice`) cannot occur for HMAC and is not modelled.
- `Utc::now()` is not modelled. The date and time stamps are parameters, and there is one stamp per attempt in the executor.
- Text operations:
  - `to_lowercase` and `is_alphanumeric` are modelled for ASCII only. Non-ASCII letters are left unchanged, and they are not alphanumeric.
  - `trim` and `split_whitespace` use Unicode White_Space, as Rust does.
  - Rust's `Debug` escaping of strings is a function that wraps the text in quotes and does not escape special characters.
- Auth.HeaderOrderIrrelevant: canonical lines are sorted as whole `name:value` strings, while signed names are sorted alone. The model does not prove that the two orders agree, and they need not.
- HTTP I/O, `tokio::time::sleep`, serde (de)serialisation and tracing are not modelled:
  - each attempt's answer is an input `Exchange` carrying the status, the reason phrase, the response text, the decoded error body and the decoded success body;
  - a request body is a given serialisation result;
  - sleeps are a returned log of milliseconds.
- Deploy.ExecuteRequest: the headers of each sent request are stated through `SentFor`: the host, date, payload hash and token values, the content type and the key set. The exact authorization value of an attempt is stated by Deploy.SignAttempt and Deploy.PreparedSignature and is not carried through the retry loop.
- The bucket and index operations of `deploy.rs` are not part of this model: create, delete, list and describe, `list_vectors`, `query_vectors` and `create_bucket_and_index`.
- Deploy.WaitForActive: the status field (`Option` in the response types) is a status function of the describe result. The crossed field names between `deploy.rs` and `types.rs` are not modelled.
- Document.SplitTextIntoChunks requires chunk_overlap < chunk_size. Without it, the Rust subtraction underflows or the loop never advances, and the model does not describe that case.
- `process_file`, `process_directory`, `clean_text`, embeddings, RAG and the other CLI commands are not modelled. They are file and network I/O, concurrency, floating point, Unicode regexes and printing.
- Environment and file access are not modelled: `LazyLock`/`envy` configuration loading, credential file opening and reading, home-directory lookup, directory creation, file writes and the 0600 permission change.
  - The loaded configuration is passed in as a `Result`.
  - File contents are passed in and returned as strings.
  - A credentials file that cannot be opened is `None`.
  - A missing file read by `save_to_aws_credentials` is the empty string.
  - The read error of `list_aws_profiles` is not modelled.
- The dialoguer prompts of `init` are not modelled. The interactive loop's I/O is not modelled either: help, banner, clearing the screen and dispatching a command to clap. Only the prompts' validators and the dispatch decision are modelled.
- Init.SavedCredentialsParse: the session token is stated only when one is written. If the token is `None`, a token from an older duplicate section of the same profile may still be read back, because only the first occurrence is removed.
- Init.AccessKeyCheck: only the validator is modelled, not the prompt that re-asks on failure.
- The interactive tokenizer's test vectors are covered by general lemmas: JoinedWords, QuotedAfterWords and EscapeQuotedText. The literal eight-argument JSON example is not restated.
- Deploy.SignFailureMessage: a URL that does not parse gives "Failed to parse URL" without the parser's own reason after the colon, because URL parsing is a parameter that reports only whether it succeeded.
- Client.FromProfile: a missing credentials file gives "AWS credentials file not found" without the " at: <path>" suffix, because the home directory and the file path are outside the model; the missing home directory is likewise not modelled.
