/** What the model needs of the JVM and of Spring: fixed-width integers with
    Kotlin's wrap-around and truncating remainder, clock readings, and the
    exceptions the core throws. */
module Jvm {
  import opened Wrappers

  const TWO_32: int := 0x1_0000_0000
  const TWO_64: int := 0x1_0000_0000_0000_0000

  /** Kotlin `Int`. */
  type Int32 = x: int | -0x8000_0000 <= x < 0x8000_0000
  /** Kotlin `Long`. */
  type Int64 = x: int | -0x8000_0000_0000_0000 <= x < 0x8000_0000_0000_0000

  /** Two's-complement wrap-around of an `Int` operation. */
  function Wrap32(x: int): (r: Int32)
    ensures (r - x) % TWO_32 == 0
    ensures -0x8000_0000 <= x < 0x8000_0000 ==> r == x
  {
    var m := x % TWO_32;
    if m < 0x8000_0000 then m else m - TWO_32
  }

  /** Wrapping a factor first does not change the wrapped product. */
  lemma Wrap32MulCongruent(n: int, x: int, w: Int32)
    requires w == Wrap32(x)
    ensures Wrap32(n * w) == Wrap32(n * x)
  {
    var k := (w - x) / TWO_32;
    assert w == x + k * TWO_32;
    assert n * w == n * x + (n * k) * TWO_32 by {
      assert n * (x + k * TWO_32) == n * x + n * (k * TWO_32);
    }
    Wrap32Periodic(n * x, n * k);
  }

  lemma Wrap32Periodic(y: int, m: int)
    ensures Wrap32(y + m * TWO_32) == Wrap32(y)
  {
    assert (y + m * TWO_32) % TWO_32 == y % TWO_32;
  }

  /** Two's-complement wrap-around of a `Long` operation. */
  function Wrap64(x: int): (r: Int64)
    ensures (r - x) % TWO_64 == 0
    ensures -0x8000_0000_0000_0000 <= x < 0x8000_0000_0000_0000 ==> r == x
  {
    var m := x % TWO_64;
    if m < 0x8000_0000_0000_0000 then m else m - TWO_64
  }

  /** Kotlin's `%` on integers: truncating division, so the remainder takes
      the sign of the dividend (Dafny's own `%` is Euclidean and never
      negative). */
  function KotlinRem(a: int, b: int): (r: int)
    requires b != 0
    ensures a >= 0 ==> 0 <= r < Abs(b)
    ensures a < 0 ==> -Abs(b) < r <= 0
    ensures (a - r) % Abs(b) == 0
  {
    var m := Abs(a) % Abs(b);
    var q := Abs(a) / Abs(b);
    if a >= 0 then
      assert a - m == q * Abs(b);
      MultipleRem(q, Abs(b));
      m
    else
      assert a + m == -q * Abs(b);
      MultipleRem(-q, Abs(b));
      -m
  }

  /** A multiple of `d` leaves no remainder. */
  lemma MultipleRem(k: int, d: int)
    requires d > 0
    ensures (k * d) % d == 0
  {
    var x := k * d;
    var q, m := x / d, x % d;
    assert x == q * d + m && 0 <= m < d;
    var j := k - q;
    assert j * d == m;
    if j > 0 {
      MulAtLeast(d, j);
    } else if j < 0 {
      MulAtLeast(d, -j);
    }
  }

  /** Multiplying by a positive factor never makes a natural number smaller. */
  lemma {:induction false} MulAtLeast(q: nat, n: int)
    requires n >= 1
    ensures q <= q * n
  {
    if q > 0 {
      MulAtLeast(q - 1, n);
      assert q * n == (q - 1) * n + n;
    }
  }

  function Abs(x: int): int {
    if x >= 0 then x else -x
  }

  /** `LocalDateTime` readings, as an opaque ordered instant. */
  type Timestamp = int

  /** `LocalDate`, as a day number. */
  type Date = int

  /** An entry of Spring's `BindingResult.allErrors`: a `FieldError` or a
      global `ObjectError` that names no field. */
  datatype BindingError =
    | FieldError(field: string, defaultMessage: Option<string>)
    | GlobalError(defaultMessage: Option<string>)

  /** The exceptions the modelled code throws or lets through. */
  datatype Exception =
    | IllegalArgument(message: Option<string>)    // also what `require` throws
    | IllegalState(reason: string)
    | IncorrectResultSize(actual: nat)            // `queryForObject` saw more than one row
    | ClassCast                                   // a failed `as` cast
    | MethodArgumentNotValid(errors: seq<BindingError>)

  function IllegalArgumentOf(message: string): Exception {
    IllegalArgument(Some(message))
  }
}
