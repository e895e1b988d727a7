/** Machine-level facts shared by every part of the library: the word size,
    size_t arithmetic, word alignment and NUL-terminated strings. */
module Machine {

  /** sizeof(size_t) and sizeof(char *) on the 64-bit targets the library is built for. */
  const WordSize: nat := 8

  /** size_t values are taken modulo this; every explicit wrap-around in the model uses it. */
  const SizeMax: nat := 0x1_0000_0000_0000_0000

  /** The C string terminator. */
  const NUL: char := '\0'

  function Max(a: nat, b: nat): nat { if a < b then b else a }

  function Min(a: nat, b: nat): nat { if a < b then a else b }

  /** The padding `(sizeof(size_t) - (a & (sizeof(size_t) - 1))) & (sizeof(size_t) - 1)`
      that moves `a` up to the next multiple of the word size. */
  function Padding(a: nat): (k: nat)
    ensures k < WordSize
    ensures (a + k) % WordSize == 0
    ensures a % WordSize == 0 ==> k == 0
  {
    (WordSize - a % WordSize) % WordSize
  }

  /** The least multiple of the word size that is at least `a`. */
  function AlignUp(a: nat): (r: nat)
    ensures a <= r < a + WordSize
    ensures r % WordSize == 0
  {
    a + Padding(a)
  }

  /** True when `s` is the content of a C string: no NUL inside it. */
  predicate NoNul(s: seq<char>) {
    forall i :: 0 <= i < |s| ==> s[i] != NUL
  }

  /** strlen over a character array: the index of the first NUL, or the
      whole array when it holds none. */
  function Strlen(s: seq<char>): (n: nat)
    ensures n <= |s|
    ensures NoNul(s[..n])
    ensures n < |s| ==> s[n] == NUL
    ensures NoNul(s) ==> n == |s|
  {
    if |s| == 0 || s[0] == NUL then 0 else 1 + Strlen(s[1..])
  }

  /** A run of `n` NUL bytes: what memset(0) writes, and how the model
      fills memory whose content the C code leaves undefined. */
  function Zeros(n: nat): (z: seq<char>)
    ensures |z| == n
    ensures forall i :: 0 <= i < n ==> z[i] == NUL
  {
    seq(n, _ => NUL)
  }
}

/** The outcome types: every fatal `abort()` and every undefined step the
    C code can take is an `Abort` carrying the reason, so no operation
    needs a precondition that hides its error path. */
module Outcomes {

  datatype Option<+T> = None | Some(value: T)

  datatype Failure =
    | ZeroSize            // a zero initial or growth size
    | SizeClassTooLarge   // a request above the largest size class
    | NullDereference     // reading through a NULL list head
    | OutOfBoundsRead     // copying more bytes than the source holds
    | FreeOfNonHeap       // free() of memory that malloc did not return
    | FormatFailed        // the formatter reported a negative length

  datatype Result<+T> = Ok(value: T) | Abort(failure: Failure)
}
