/** `DownloadSECFile` (downloader/main.go:126-187) with the network abstracted away.
    Each attempt to send the request either fails in transport or yields a response;
    the request is retried after transport failures only, at most five times, so at
    most six attempts are made. The status code of the response is then classified,
    and only a response below 300 has its gzip body decoded. */
module Fetcher {
  import opened Results

  /** What reading a response body yields: the decompressed text, or the failure of
      `gzip.NewReader` (the body is not gzip) or of `ioutil.ReadAll`. */
  datatype Body = Decoded(content: string) | GzipFailure | ReadFailure

  /** One send of the request: a transport error, or a response. */
  datatype Attempt = TransportFailure | Response(status: int, body: Body)

  /** Why a download produced no content. */
  datatype FetchError =
    | ErrTransport       // every attempt failed in transport
    | ErrNotFound        // status 404
    | ErrRateLimited     // status 429
    | ErrDoesNotExist    // status 403
    | ErrHighStatusCode  // any other status above 299
    | ErrGzip            // the body is not gzip
    | ErrRead            // the body could not be read to the end

  /** The branches of the status ladder. */
  datatype StatusClass = NotFound | RateLimited | DoesNotExist | HighStatusCode | Proceed

  /** Retries after the first attempt (`backoff.WithMaxRetries(..., 5)`). */
  const MaxRetries: nat := 5

  /** Attempts made at most: the first one and every retry. */
  const MaxAttempts: nat := MaxRetries + 1

  /** The status ladder, checked in source order: 404, 429, 403, then anything above 299. */
  function ClassifyStatus(code: int): (c: StatusClass)
    ensures c == NotFound <==> code == 404
    ensures c == RateLimited <==> code == 429
    ensures c == DoesNotExist <==> code == 403
    ensures c == HighStatusCode <==> code > 299 && code != 404 && code != 429 && code != 403
    ensures c == Proceed <==> code <= 299
  {
    if code == 404 then NotFound
    else if code == 429 then RateLimited
    else if code == 403 then DoesNotExist
    else if code > 299 then HighStatusCode
    else Proceed
  }

  /** The error a non-proceeding status class is reported as. */
  function ClassError(c: StatusClass): FetchError
    requires c != Proceed
  {
    match c
    case NotFound => ErrNotFound
    case RateLimited => ErrRateLimited
    case DoesNotExist => ErrDoesNotExist
    case HighStatusCode => ErrHighStatusCode
  }

  /** What the code after the retry loop makes of the response it obtained. */
  function Interpret(status: int, body: Body): (r: Result<string, FetchError>)
    ensures r.Ok? ==> status <= 299 && body == Decoded(r.value)
    ensures status <= 299 && body.Decoded? ==> r == Ok(body.content)
    ensures status > 299 ==> r == Err(ClassError(ClassifyStatus(status)))
  {
    var c := ClassifyStatus(status);
    if c != Proceed then Err(ClassError(c))
    else
      match body
      case GzipFailure => Err(ErrGzip)
      case ReadFailure => Err(ErrRead)
      case Decoded(content) => Ok(content)
  }

  /** The response obtained by the retry loop when it starts at attempt `k`: the first
      attempt from `k` on, below `MaxAttempts`, that did not fail in transport. */
  function FirstResponse(attempts: nat -> Attempt, k: nat): (r: Option<nat>)
    requires k <= MaxAttempts
    ensures r.Some? ==> k <= r.value < MaxAttempts && attempts(r.value).Response?
    ensures r.Some? ==> forall j :: k <= j < r.value ==> attempts(j).TransportFailure?
    ensures r.None? ==> forall j :: k <= j < MaxAttempts ==> attempts(j).TransportFailure?
    decreases MaxAttempts - k
  {
    if k == MaxAttempts then None
    else if attempts(k).Response? then Some(k)
    else FirstResponse(attempts, k + 1)
  }

  /** The outcome of the download as the source is written: when every attempt fails
      in transport, `resp` is still nil when its status code is read, and the program
      crashes. */
  datatype RawOutcome = NilResponsePanic | Returned(result: Result<string, FetchError>)

  /** `DownloadSECFile` as written. */
  function DownloadAsWritten(attempts: nat -> Attempt): (o: RawOutcome)
    ensures o == NilResponsePanic <==> forall j :: 0 <= j < MaxAttempts ==> attempts(j).TransportFailure?
  {
    match FirstResponse(attempts, 0)
    case None => NilResponsePanic
    case Some(k) => Returned(Interpret(attempts(k).status, attempts(k).body))
  }

  /** `DownloadSECFile` with the exhausted retries reported as an error, as the
      surrounding code (which checks the returned error) evidently expects. */
  function DownloadSECFile(attempts: nat -> Attempt): (r: Result<string, FetchError>)
    ensures r == Err(ErrTransport) <==> forall j :: 0 <= j < MaxAttempts ==> attempts(j).TransportFailure?
  {
    match FirstResponse(attempts, 0)
    case None => Err(ErrTransport)
    case Some(k) => Interpret(attempts(k).status, attempts(k).body)
  }

  /** Whenever the source does not crash, the corrected download returns what it does. */
  lemma CorrectedAgreesWhenNoPanic(attempts: nat -> Attempt)
    requires DownloadAsWritten(attempts).Returned?
    ensures DownloadSECFile(attempts) == DownloadAsWritten(attempts).result
  {
  }

  /** Six transport failures in a row crash the source; the corrected download reports them. */
  lemma AllTransportFailuresPanic()
    ensures DownloadAsWritten(_ => TransportFailure) == NilResponsePanic
    ensures DownloadSECFile(_ => TransportFailure) == Err(ErrTransport)
  {
    var attempts: nat -> Attempt := _ => TransportFailure;
    assert forall j :: 0 <= j < MaxAttempts ==> attempts(j).TransportFailure?;
  }

  /** Transport failures are retried: after `k` of them, fewer than six in all, the
      download is decided by the next response alone. */
  lemma {:induction false} TransportFailuresRetried(attempts: nat -> Attempt, k: nat)
    requires k < MaxAttempts
    requires forall j :: 0 <= j < k ==> attempts(j).TransportFailure?
    requires attempts(k).Response?
    ensures DownloadSECFile(attempts) == Interpret(attempts(k).status, attempts(k).body)
  {
    SkipFailures(attempts, 0, k);
  }

  /** The retry loop passes over transport failures. */
  lemma {:induction false} SkipFailures(attempts: nat -> Attempt, i: nat, k: nat)
    requires i <= k < MaxAttempts
    requires forall j :: i <= j < k ==> attempts(j).TransportFailure?
    requires attempts(k).Response?
    ensures FirstResponse(attempts, i) == Some(k)
    decreases k - i
  {
    if i < k {
      SkipFailures(attempts, i + 1, k);
    }
  }

  /** A 429 is not retried: the first response decides, whatever later attempts would give. */
  lemma RateLimitNotRetried(attempts: nat -> Attempt, body: Body)
    requires attempts(0) == Response(429, body)
    ensures DownloadSECFile(attempts) == Err(ErrRateLimited)
  {
  }

  /** No status is retried: every response ends the loop, so only failures in transport
      lead to further attempts. */
  lemma ResponsesNotRetried(attempts: nat -> Attempt, status: int, body: Body)
    requires attempts(0) == Response(status, body)
    ensures DownloadSECFile(attempts) == Interpret(status, body)
  {
  }

  /** Only the first six attempts are ever made: streams agreeing on them download alike. */
  lemma {:induction false} OnlySixAttempts(a: nat -> Attempt, b: nat -> Attempt)
    requires forall j :: 0 <= j < MaxAttempts ==> a(j) == b(j)
    ensures DownloadSECFile(a) == DownloadSECFile(b)
    ensures DownloadAsWritten(a) == DownloadAsWritten(b)
  {
    FirstResponseAgrees(a, b, 0);
  }

  /** The retry loop started at `k` looks only at attempts `k` to five. */
  lemma {:induction false} FirstResponseAgrees(a: nat -> Attempt, b: nat -> Attempt, k: nat)
    requires k <= MaxAttempts
    requires forall j :: k <= j < MaxAttempts ==> a(j) == b(j)
    ensures FirstResponse(a, k) == FirstResponse(b, k)
    decreases MaxAttempts - k
  {
    if k < MaxAttempts {
      FirstResponseAgrees(a, b, k + 1);
    }
  }

  /** Content is only ever returned for a response below 300 whose body decoded to it. */
  lemma ContentOnlyFromSuccess(attempts: nat -> Attempt)
    requires DownloadSECFile(attempts).Ok?
    ensures exists k :: 0 <= k < MaxAttempts && attempts(k).Response? && attempts(k).status <= 299
                        && attempts(k).body == Decoded(DownloadSECFile(attempts).value)
  {
    var k := FirstResponse(attempts, 0).value;
    assert attempts(k).Response? && attempts(k).status <= 299;
  }
}
