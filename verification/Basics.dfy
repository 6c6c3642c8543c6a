/** Shared datatypes, and the integer conversions of Go's `math/big` that the server relies on. */
module Basics {

  datatype Option<+T> = None | Some(value: T)

  /** A value or an error; usable with `:-`. */
  datatype Result<+T, +E> = Success(value: T) | Failure(error: E) {
    predicate IsFailure() {
      Failure?
    }

    function PropagateFailure<U>(): Result<U, E>
      requires Failure?
    {
      Failure(error)
    }

    function Extract(): T
      requires Success?
    {
      value
    }
  }

  newtype byte = x: int | 0 <= x < 256

  const TWO_63: int := 0x8000_0000_0000_0000
  const TWO_64: int := 0x1_0000_0000_0000_0000

  /** `(*big.Int).Int64`: the low 64 bits, read as a signed number. */
  function Int64(n: int): int {
    var low := n % TWO_64;
    if low < TWO_63 then low else low - TWO_64
  }

  /**
   * The conversion keeps its argument exactly when the argument is an int64, and is always the int64 that differs from
   * it by a multiple of 2^64.
   */
  lemma Int64Exact(n: int)
    ensures Int64(n) == n <==> -TWO_63 <= n < TWO_63
    ensures -TWO_63 <= Int64(n) < TWO_63 && (n - Int64(n)) % TWO_64 == 0
  {
  }

  /** Truncated division, Go's `Quo`, for a positive divisor. */
  function Quo(a: int, b: int): int
    requires b > 0
  {
    if a >= 0 then a / b else -((-a) / b)
  }

  function Max(a: int, b: int): int {
    if a > b then a else b
  }

  function Min(a: int, b: int): int {
    if a < b then a else b
  }

  function Pow10(k: nat): (r: nat)
    ensures r > 0
  {
    if k == 0 then 1 else 10 * Pow10(k - 1)
  }

  lemma MulMonotone(a: int, b: int, c: int)
    requires a <= b && c >= 0
    ensures a * c <= b * c
  {
    MulNonNegative(b - a, c);
    assert (b - a) * c == b * c - a * c;
  }

  lemma MulNonNegative(a: int, b: int)
    requires a >= 0 && b >= 0
    ensures a * b >= 0
  {
  }

  /** Quotient and remainder are unique. */
  lemma DivModUnique(n: int, b: int, q: int, r: int)
    requires b > 0 && n == q * b + r && 0 <= r < b
    ensures n / b == q && n % b == r
  {
    var q', r' := n / b, n % b;
    assert n == q' * b + r';
    assert (q' + 1) * b == q' * b + b && (q + 1) * b == q * b + b;
    if q' < q {
      MulMonotone(q' + 1, q, b);
    } else if q < q' {
      MulMonotone(q + 1, q', b);
    }
  }
}
