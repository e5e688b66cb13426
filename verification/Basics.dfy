/** Shared vocabulary: options and results, machine integers, clock values and text checks. */
module Basics {

  datatype Option<+T> = None | Some(value: T)

  datatype Result<+T, +E> = Ok(value: T) | Err(error: E)

  /** An unsigned 64-bit integer: every arithmetic result is checked to be in range. */
  newtype u64 = n: int | 0 <= n < 0x1_0000_0000_0000_0000

  const NANOS_PER_SECOND := 1_000_000_000
  const MIN_INSTANT := -377_705_116_800 * NANOS_PER_SECOND
  const MAX_INSTANT := 253_402_300_800 * NANOS_PER_SECOND - 1

  /** A clock value in nanoseconds since the Unix epoch, between the years -9999 and 9999. */
  type Instant = t: int | MIN_INSTANT <= t <= MAX_INSTANT witness 0

  /** The unchecked cast from an unsigned to a signed 64-bit integer. */
  function AsI64(n: u64): (i: int)
    ensures -0x8000_0000_0000_0000 <= i < 0x8000_0000_0000_0000
    ensures i == n as int || i == n as int - 0x1_0000_0000_0000_0000
  {
    if n < 0x8000_0000_0000_0000 then n as int else n as int - 0x1_0000_0000_0000_0000
  }

  /** Adds a lease to a clock value. `None` is the panic of an addition that leaves the clock range. */
  function LeaseEnd(now: Instant, leaseSeconds: u64): Option<Instant> {
    var end := now + AsI64(leaseSeconds) * NANOS_PER_SECOND;
    if MIN_INSTANT <= end <= MAX_INSTANT then Some(end) else None
  }

  /** The Unicode White_Space property, which decides what trimming removes. */
  predicate IsWhitespace(c: char) {
    || '\t' <= c <= '\r' || c == ' ' || c == '\U{85}' || c == '\U{A0}' || c == '\U{1680}'
    || '\U{2000}' <= c <= '\U{200A}' || c == '\U{2028}' || c == '\U{2029}' || c == '\U{202F}'
    || c == '\U{205F}' || c == '\U{3000}'
  }

  /** A string that is empty after trimming. */
  predicate IsBlank(s: string) {
    forall i :: 0 <= i < |s| ==> IsWhitespace(s[i])
  }

  /** The structured failure that every relay module returns. */
  datatype RelayError = RelayError(
    code: string, stage: string, targetId: Option<string>, message: string, retryable: bool)

  type RelayResult<+T> = Result<T, RelayError>

  /** A call that may also abort on an out-of-range clock addition. */
  datatype Attempt<+T> = Returned(result: RelayResult<T>) | Panicked

  function NewError(code: string, stage: string, message: string, retryable: bool): RelayError {
    RelayError(code, stage, None, message, retryable)
  }

  function TargetError(code: string, stage: string, targetId: string, message: string, retryable: bool): RelayError {
    RelayError(code, stage, Some(targetId), message, retryable)
  }

  function GetOr<T>(o: Option<T>, default: T): T {
    match o case Some(v) => v case None => default
  }
}
