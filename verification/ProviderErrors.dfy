/**
 How the E2B client classifies failures, and which calls it may replay.
 */
module ProviderErrors {
  import opened Wrappers

  datatype ErrorKind =
    | Configuration
    | Authentication
    | NotFound
    | RateLimited
    | Unavailable
    | Cancelled
    | DeadlineExceeded
    | Protocol
    | Remote
    | Io

  datatype ProviderError = ProviderError(kind: ErrorKind, retryable: bool, ambiguous: bool)

  // What the HTTP client knows about a request that got no response.
  datatype RequestFailure = RequestFailure(timeout: bool, connect: bool, body: bool)

  // One HTTP exchange, as far as it got.
  datatype Exchange =
    | NotSent(failure: RequestFailure)
    | BodyLost(failure: RequestFailure)
    | Answered(status: nat, id: Option<string>)

  function ConfigurationError(): ProviderError {
    ProviderError(Configuration, false, false)
  }

  function FromRequest(failure: RequestFailure, replayable: bool): ProviderError {
    var transient := failure.timeout || failure.connect || failure.body;
    ProviderError(if transient then Unavailable else Remote, transient && replayable, !replayable)
  }

  predicate TransientStatus(status: nat) {
    status == 429 || status in {408, 425, 502, 503, 504} || 500 <= status < 600
  }

  function FromResponse(status: nat, replayable: bool): ProviderError {
    var transient := TransientStatus(status);
    var kind :=
      if status == 401 || status == 403 then Authentication
      else if status == 404 then NotFound
      else if status == 429 then RateLimited
      else if transient then Unavailable
      else Remote;
    ProviderError(kind, transient && replayable, transient && !replayable)
  }

  function CheckedJson(exchange: Exchange, replayable: bool): Result<string, ProviderError> {
    match exchange
    case NotSent(failure) => Failure(FromRequest(failure, replayable))
    case BodyLost(failure) => Failure(FromRequest(failure, replayable))
    case Answered(status, id) =>
      if !(200 <= status < 300) then Failure(FromResponse(status, replayable))
      else if id.None? then Failure(ProviderError(Protocol, false, false))
      else Success(id.value)
  }

  // The sandbox and snapshot POSTs are sent once.
  function PostOnce(exchange: Exchange): Result<string, ProviderError> {
    CheckedJson(exchange, false)
  }

  /** A failed POST is never retryable; it is ambiguous unless a response, or a
      response that is not transient, settled it. */
  lemma PostIsNotReplayed(exchange: Exchange)
    ensures PostOnce(exchange).Failure? ==> !PostOnce(exchange).error.retryable
    ensures PostOnce(exchange).Failure? && PostOnce(exchange).error.ambiguous <==>
      !exchange.Answered? || (TransientStatus(exchange.status) && !(200 <= exchange.status < 300))
  {}

  /** Which failures of a call may be tried again and which leave its effect unknown:
      never both, the first only for replayable calls and the second only for others. */
  lemma FailuresAreEither(exchange: Exchange, replayable: bool)
    requires CheckedJson(exchange, replayable).Failure?
    ensures
      var error := CheckedJson(exchange, replayable).error;
      var transient := match exchange
        case NotSent(failure) => failure.timeout || failure.connect || failure.body
        case BodyLost(failure) => failure.timeout || failure.connect || failure.body
        case Answered(status, _) => status in {408, 425, 429} || 500 <= status <= 599;
      && (error.retryable <==> replayable && transient)
      && (error.ambiguous <==> !replayable && (transient || !exchange.Answered?))
      && !(error.retryable && error.ambiguous)
      && (error.kind == NotFound <==> exchange.Answered? && exchange.status == 404)
      && (error.kind == Authentication <==> exchange.Answered? && exchange.status in {401, 403})
      && (error.kind == RateLimited <==> exchange.Answered? && exchange.status == 429)
      && (error.kind == Unavailable <==> transient && error.kind != RateLimited)
  {}

  /** The delay-and-retry loop of replayable calls; `call(k)` is the k-th answer.
      It stops at the first answer that is not retryable, or at the last attempt. */
  method Retry(call: nat -> Result<string, ProviderError>, maxAttempts: nat)
    returns (answer: Result<string, ProviderError>, attempts: nat)
    ensures attempts >= 1 && (maxAttempts >= 1 ==> attempts <= maxAttempts)
    ensures answer == call(attempts)
    ensures forall k | 1 <= k < attempts :: call(k).Failure? && call(k).error.retryable
    ensures answer.Success? || !answer.error.retryable || attempts >= maxAttempts
  {
    attempts := 1;
    answer := call(1);
    while answer.Failure? && answer.error.retryable && attempts < maxAttempts
      invariant attempts >= 1 && (maxAttempts >= 1 ==> attempts <= maxAttempts)
      invariant answer == call(attempts)
      invariant forall k | 1 <= k < attempts :: call(k).Failure? && call(k).error.retryable
      decreases maxAttempts - attempts
    {
      attempts := attempts + 1;
      answer := call(attempts);
    }
  }
}
