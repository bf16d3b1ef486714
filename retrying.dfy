/** The retry decision policy of the fractalbot-post crate: a cap on the
    number of attempts, a predicate choosing which errors are worth a retry,
    and an exponential back-off of 2^attempt seconds. The error type stays
    abstract (type parameter `E`); the one concrete predicate the client uses
    is modelled over `MediaError` below. */
module Retrying {
  import Decimal
  import opened Wrappers

  const U32Modulus: nat := 0x1_0000_0000
  const U64Modulus: nat := 0x1_0000_0000_0000_0000

  /** The attempt cap that `Retry::when` always installs. */
  const DefaultAttempts: nat := 5

  /** `Retry<F>`: the attempt cap (`usize`) and the error predicate. */
  datatype Retry<-E> = Retry(attempts: nat, shouldRetry: E -> bool)

  /** The two decisions `handle` can take (of futures_retry's `RetryPolicy`);
      `WaitRetry` carries the delay in whole seconds. */
  datatype RetryPolicy<E> = ForwardError(err: E) | WaitRetry(seconds: nat)

  function Pow2(k: nat): (r: nat)
    ensures r >= 1
  {
    if k == 0 then 1 else 2 * Pow2(k - 1)
  }

  /** `2u64.pow(attempt as u32)`: the cast keeps the low 32 bits and the
      power wraps modulo 2^64 (release build). */
  function Delay(attempt: nat): (seconds: nat)
    ensures seconds < U64Modulus
  {
    Pow2(attempt % U32Modulus) % U64Modulus
  }

  /** `Retry::when`: any predicate, always the default cap. */
  function When<E>(shouldRetry: E -> bool): (r: Retry<E>)
    ensures r.attempts == DefaultAttempts
    ensures r.shouldRetry == shouldRetry
  {
    Retry(DefaultAttempts, shouldRetry)
  }

  /** `Retry::any`: retry on every error. */
  function Any<E(!new)>(): (r: Retry<E>)
    ensures r.attempts == DefaultAttempts
    ensures forall e :: r.shouldRetry(e)
  {
    When(_ => true)
  }

  /** `ErrorHandler::handle`. It takes the policy by value and answers with a
      decision only, so the cap and the predicate are the same afterwards. */
  function Handle<E>(retry: Retry<E>, attempt: nat, err: E): (p: RetryPolicy<E>)
    ensures p.ForwardError? <==> attempt > retry.attempts || !retry.shouldRetry(err)
    ensures p.ForwardError? ==> p.err == err
    ensures p.WaitRetry? ==> p.seconds == Delay(attempt)
  {
    if attempt > retry.attempts then ForwardError(err)
    else if retry.shouldRetry(err) then WaitRetry(Delay(attempt))
    else ForwardError(err)
  }

  lemma {:induction false} Pow2StrictlyIncreasing(a: nat, b: nat)
    requires a < b
    ensures Pow2(a) < Pow2(b)
  {
    if a + 1 < b {
      Pow2StrictlyIncreasing(a, b - 1);
    }
  }

  lemma {:induction false} Pow2Add(a: nat, b: nat)
    ensures Pow2(a + b) == Pow2(a) * Pow2(b)
  {
    if a > 0 {
      Pow2Add(a - 1, b);
    }
  }

  lemma Pow2Of64()
    ensures Pow2(64) == U64Modulus
  {
    assert Pow2(4) == 16;
    Pow2Add(4, 4);
    Pow2Add(8, 8);
    Pow2Add(16, 16);
    Pow2Add(32, 32);
  }

  /** Below 64 the power of two fits in a `u64`, so the delay is exact. */
  lemma DelayExact(attempt: nat)
    requires attempt < 64
    ensures Delay(attempt) == Pow2(attempt)
  {
    assert attempt % U32Modulus == attempt;
    Pow2Of64();
    Pow2StrictlyIncreasing(attempt, 64);
    assert Pow2(attempt) < U64Modulus;
  }

  /** Over the attempts where no wrap-around happens, a later attempt waits
      strictly longer. */
  lemma DelayStrictlyIncreasing(a: nat, b: nat)
    requires a < b < 64
    ensures Delay(a) < Delay(b)
  {
    DelayExact(a);
    DelayExact(b);
    Pow2StrictlyIncreasing(a, b);
  }

  /** Past the cap the error is forwarded unchanged, whatever the predicate. */
  lemma ForwardsPastCap<E>(retry: Retry<E>, attempt: nat, err: E)
    requires attempt > retry.attempts
    ensures Handle(retry, attempt, err) == ForwardError(err)
  {
  }

  /** Within the cap, an error the predicate rejects is forwarded unchanged. */
  lemma ForwardsRejected<E>(retry: Retry<E>, attempt: nat, err: E)
    requires attempt <= retry.attempts && !retry.shouldRetry(err)
    ensures Handle(retry, attempt, err) == ForwardError(err)
  {
  }

  /** Within a cap below 64, an accepted error waits exactly 2^attempt s. */
  lemma WaitsExponentially<E>(retry: Retry<E>, attempt: nat, err: E)
    requires attempt <= retry.attempts < 64 && retry.shouldRetry(err)
    ensures Handle(retry, attempt, err) == WaitRetry(Pow2(attempt))
    ensures Pow2(attempt) < U64Modulus
  {
    DelayExact(attempt);
  }

  /** Any policy built by `When` waits exactly 2^attempt seconds, at most 32,
      on an accepted error within its cap: the power cannot overflow. */
  lemma WhenDelayBounded<E>(shouldRetry: E -> bool, attempt: nat, err: E)
    requires attempt <= DefaultAttempts && shouldRetry(err)
    ensures Handle(When(shouldRetry), attempt, err) == WaitRetry(Pow2(attempt))
    ensures Pow2(attempt) <= 32
  {
    DelayExact(attempt);
    assert Pow2(5) == 32;
    if attempt < 5 {
      Pow2StrictlyIncreasing(attempt, 5);
    }
  }

  /** Under `Retry::any` no error is forwarded within the cap; from the
      attempt after the cap every error is. */
  lemma AnyForwardsOnlyPastCap<E(!new)>(attempt: nat, err: E)
    ensures Handle(Any(), attempt, err).ForwardError? <==> attempt > DefaultAttempts
  {
  }

  // The predicate used when polling an asynchronously processed upload.

  /** The part of megalodon's error the client inspects: the kind of an
      error the library raises itself, or an error from elsewhere. */
  datatype ErrorKind = HttpPartialContent | OtherKind(code: nat)
  datatype MediaError = OwnError(kind: ErrorKind) | ForeignError(code: nat)

  /** The predicate the client passes to `Retry::when`: only the library's
      own partial-content error is worth polling again. */
  predicate IsPartialContent(e: MediaError): (partial: bool)
    ensures partial <==> e == OwnError(HttpPartialContent)
  {
    e.OwnError? && e.kind == HttpPartialContent
  }

  /** The policy that polls processed media: retry only on partial content. */
  function PartialContentRetry(): (r: Retry<MediaError>)
    ensures r.attempts == DefaultAttempts
    ensures forall e :: r.shouldRetry(e) <==> IsPartialContent(e)
  {
    When(IsPartialContent)
  }

  lemma PartialContentDecision(attempt: nat, err: MediaError)
    ensures Handle(PartialContentRetry(), attempt, err).WaitRetry?
        <==> attempt <= DefaultAttempts && IsPartialContent(err)
    ensures !IsPartialContent(err) ==> Handle(PartialContentRetry(), attempt, err) == ForwardError(err)
  {
  }

  // Turning the final outcome into a result.

  /** An `anyhow` error: a context message wrapping the original error. */
  datatype Context<E> = Context(message: string, source: E)

  /** `retries_str`: the correctly pluralised noun. */
  function RetriesWord(numRetries: nat): (w: string)
    ensures w == "retry" <==> numRetries == 1
    ensures w == "retries" <==> numRetries != 1
  {
    if numRetries == 1 then "retry" else "retries"
  }

  const FailurePrefix: string := "Failed to upload image after "

  /** The context message `annotate_retries` attaches to a failure. */
  function FailureMessage(numRetries: nat): (m: string)
    ensures FailurePrefix <= m
    ensures |m| == |FailurePrefix| + |Decimal.Show(numRetries)| + 1 + |RetriesWord(numRetries)|
    ensures m[|m| - |RetriesWord(numRetries)|..] == RetriesWord(numRetries)
    ensures m[|FailurePrefix|..|m| - |RetriesWord(numRetries)| - 1] == Decimal.Show(numRetries)
    ensures m[|FailurePrefix| + |Decimal.Show(numRetries)|] == ' '
  {
    FailurePrefix + Decimal.Show(numRetries) + " " + RetriesWord(numRetries)
  }

  /** Reads the retry count back out of a failure message. */
  function RetryCountOf(message: string): Option<nat> {
    if FailurePrefix <= message then
      var digits := Decimal.TakeDigits(message[|FailurePrefix|..]);
      if |digits| == 0 then None else Some(Decimal.Parse(digits))
    else None
  }

  /** The message names the retry count exactly: it can be read back. */
  lemma FailureMessageCount(numRetries: nat)
    ensures RetryCountOf(FailureMessage(numRetries)) == Some(numRetries)
  {
    var shown := Decimal.Show(numRetries);
    var message := FailureMessage(numRetries);
    var tail := " " + RetriesWord(numRetries);
    var rest := message[|FailurePrefix|..];
    assert rest == shown + tail by {
      assert message == (FailurePrefix + shown + " ") + RetriesWord(numRetries);
      assert message == FailurePrefix + (shown + tail);
    }
    Decimal.TakeDigitsBeforeSeparator(shown, tail);
    Decimal.ParseShow(numRetries);
  }

  /** `annotate_retries`: success passes its value through; failure wraps the
      original error in a message carrying the retry count. */
  function AnnotateRetries<T, E>(res: Result<(T, nat), (E, nat)>): (r: Result<T, Context<E>>)
    ensures res.Ok? <==> r.Ok?
    ensures res.Ok? ==> r.value == res.value.0
    ensures res.Err? ==> r.error.source == res.error.0
    ensures res.Err? ==> RetryCountOf(r.error.message) == Some(res.error.1)
    ensures res.Err? ==> FailurePrefix <= r.error.message
    ensures res.Err? ==> r.error.message[|r.error.message| - |RetriesWord(res.error.1)|..]
                         == RetriesWord(res.error.1)
    ensures res.Err? ==> r.error.message == FailureMessage(res.error.1)
  {
    match res
    case Ok((value, _)) => Ok(value)
    case Err((err, numRetries)) =>
      FailureMessageCount(numRetries);
      Err(Context(FailureMessage(numRetries), err))
  }
}
