/** Fixed-width machine integers of the C sources, as subset types of int, and a
    small Option type for values a C pointer may leave out (NULL). */
module Types {

  type byte = x: int | 0 <= x < 0x100
  type u16 = x: int | 0 <= x < 0x1_0000
  type u32 = x: int | 0 <= x < 0x1_0000_0000
  type u64 = x: int | 0 <= x < 0x1_0000_0000_0000_0000
  /** time_t: a signed 64-bit count of seconds. */
  type i64 = x: int | -0x8000_0000_0000_0000 <= x < 0x8000_0000_0000_0000

  const TWO_TO_32: int := 0x1_0000_0000
  const TWO_TO_64: int := 0x1_0000_0000_0000_0000
  const UINT64_MAX: u64 := 0xffff_ffff_ffff_ffff

  datatype Option<T> = None | Some(value: T)

  /** A value, or the error code a C function would have returned instead. */
  datatype Result<T, E> = Ok(value: T) | Err(error: E) {
    predicate IsFailure() { Err? }
    function PropagateFailure<U>(): Result<U, E> requires Err? { Err(error) }
    function Extract(): T requires Ok? { value }
  }

  /** The uint32_t that C's implicit conversion from a wider unsigned value keeps. */
  function TruncateToU32(x: u64): (r: u32)
    ensures r == x <==> x < TWO_TO_32
    ensures (r - x) % TWO_TO_32 == 0
  {
    x % TWO_TO_32
  }

  /** The uint64_t that a time_t (two's complement) is converted to. */
  function I64ToU64(x: i64): (r: u64)
    ensures x >= 0 ==> r == x
    ensures x < 0 ==> r == x + TWO_TO_64
  {
    if x >= 0 then x else x + TWO_TO_64
  }

  /** The time_t that a uint64_t is converted back to (two's complement). */
  function U64ToI64(x: u64): (r: i64)
    ensures I64ToU64(r) == x
  {
    if x < 0x8000_0000_0000_0000 then x else x - TWO_TO_64
  }

  /** Taking one more element of a sequence appends that element. */
  lemma TakeOneMore<T>(s: seq<T>, i: nat)
    requires i < |s|
    ensures s[..i + 1] == s[..i] + [s[i]]
  {
  }

  lemma U64ToI64OfI64ToU64(x: i64)
    ensures U64ToI64(I64ToU64(x)) == x
  {
  }
}

/** include/return_codes.h lists only the first two names; every other name the
    C sources use is gathered here as well. */
module ReturnCodes {

  datatype ReturnCode =
    | Success
    | FailureCouldNotMalloc
    | FailureInvalidInput
    | FailureFileIo
    | FailureBufferTooSmall
    | FailureSignatureTooLong
    | FailureStoppedEarly
    | FailureCouldNotFindValidProofOfWork
    | FailureLongerBlockchainDetected
    | FailurePthreadFunction
    | FailureInvalidCommandPrefix
}
