/** CalculatorService: arithmetic on Kotlin `Int`, with the overflow
    behaviour of the JVM written out. */
module Calculator {
  import opened Wrappers
  import opened Jvm

  const MsgDivisionByZero: string := "Division by zero is not allowed"
  const MsgNegativeFactorial: string := "Factorial is not defined for negative numbers"

  /** `add`: the sum, wrapped to 32 bits. */
  function Add(a: Int32, b: Int32): (r: Int32)
    ensures (r - (a + b)) % TWO_32 == 0
    ensures -0x8000_0000 <= a + b < 0x8000_0000 ==> r == a + b
  {
    Wrap32(a + b)
  }

  /** `subtract`: the difference, wrapped to 32 bits. */
  function Subtract(a: Int32, b: Int32): (r: Int32)
    ensures (r - (a - b)) % TWO_32 == 0
    ensures -0x8000_0000 <= a - b < 0x8000_0000 ==> r == a - b
  {
    Wrap32(a - b)
  }

  /** `multiply`: the product, wrapped to 32 bits. */
  function Multiply(a: Int32, b: Int32): (r: Int32)
    ensures (r - a * b) % TWO_32 == 0
    ensures -0x8000_0000 <= a * b < 0x8000_0000 ==> r == a * b
  {
    Wrap32(a * b)
  }

  /** `divide`: refuses a zero divisor; otherwise the exact quotient (the
      model does not round it to a `Double`). */
  function Divide(a: Int32, b: Int32): (r: Result<real, Exception>)
    ensures r.Failure? <==> b == 0
    ensures r.Failure? ==> r.error == IllegalArgumentOf(MsgDivisionByZero)
    ensures r.Success? ==> r.value * (b as real) == a as real
  {
    if b == 0 then Failure(IllegalArgumentOf(MsgDivisionByZero))
    else Success(a as real / b as real)
  }

  /** `isEven`: `number % 2 == 0` with Kotlin's sign-keeping remainder. */
  function IsEven(n: Int32): (r: bool)
    ensures r <==> n % 2 == 0
  {
    KotlinRem(n, 2) == 0
  }

  /** `max`. */
  function Max(a: Int32, b: Int32): (r: Int32)
    ensures r >= a && r >= b
    ensures r == a || r == b
  {
    if a > b then a else b
  }

  /** The mathematical factorial. */
  function Fact(n: nat): nat {
    if n == 0 then 1 else n * Fact(n - 1)
  }

  /** The recursion of `factorial` once the sign is checked: `n * factorial(n - 1)`
      multiplies an `Int` by a `Long`, so every step wraps to 64 bits. */
  function FactorialLong(n: nat): (r: Int64)
    ensures r == Wrap64(Fact(n))
  {
    if n <= 1 then 1
    else
      var prev := FactorialLong(n - 1);
      Wrap64MulCongruent(n, Fact(n - 1), prev);
      Wrap64(n * prev)
  }

  /** `factorial`. */
  function Factorial(n: Int32): (r: Result<Int64, Exception>)
    ensures r.Failure? <==> n < 0
    ensures r.Failure? ==> r.error == IllegalArgumentOf(MsgNegativeFactorial)
    ensures r.Success? ==> r.value == Wrap64(Fact(n))
  {
    if n < 0 then Failure(IllegalArgumentOf(MsgNegativeFactorial))
    else Success(FactorialLong(n))
  }

  /** Wrapping after every multiplication is the same as wrapping once. */
  lemma Wrap64MulCongruent(n: nat, x: int, w: Int64)
    requires w == Wrap64(x)
    ensures Wrap64(n * w) == Wrap64(n * x)
  {
    var k := (w - x) / TWO_64;
    assert w == x + k * TWO_64;
    assert n * w == n * x + (n * k) * TWO_64 by {
      assert n * (x + k * TWO_64) == n * x + n * (k * TWO_64);
    }
    Wrap64Periodic(n * x, n * k);
  }

  lemma Wrap64Periodic(y: int, m: int)
    ensures Wrap64(y + m * TWO_64) == Wrap64(y)
  {
    assert (y + m * TWO_64) % TWO_64 == y % TWO_64;
  }

  /** Up to 20 the `Long` result is the exact factorial; 20! is the largest
      factorial below 2^63. */
  lemma {:induction false} FactorialExactUpTo20(n: nat)
    requires n <= 20
    ensures Fact(n) <= Fact(20) < 0x8000_0000_0000_0000
    ensures FactorialLong(n) == Fact(n)
  {
    FactBounded(n, 20);
    Fact20();
  }

  lemma {:induction false} FactBounded(n: nat, m: nat)
    requires n <= m
    ensures Fact(n) <= Fact(m)
    decreases m - n
  {
    if n < m {
      FactBounded(n, m - 1);
      MulAtLeast(Fact(m - 1), m);
      assert Fact(m - 1) * m == Fact(m);
    }
  }

  lemma Fact20()
    ensures Fact(20) == 2432902008176640000
  {
    assert Fact(5) == 120;
    assert Fact(10) == 3628800;
    assert Fact(15) == 1307674368000;
  }

  /** From 21 on the product wraps: 21! comes back negative. */
  lemma Factorial21Overflows()
    ensures Factorial(21) == Success(-4249290049419214848)
  {
    Fact20();
    assert Fact(21) == 51090942171709440000;
  }

  /** The service's own test vectors for the arithmetic operations. */
  lemma CalculatorExamples()
    ensures Add(5, 3) == 8 && Add(-3, -7) == -10
    ensures Subtract(0, 5) == -5 && Multiply(-3, -4) == 12
    ensures Divide(10, 0).Failure? && Divide(10, 2) == Success(5.0)
    ensures IsEven(-2) && !IsEven(-3) && IsEven(0) && !IsEven(99)
    ensures Max(-3, -5) == -3 && Max(5, 5) == 5
  {
  }

  /** The service's own test vectors for `factorial`. */
  lemma FactorialExamples()
    ensures Factorial(0) == Success(1) && Factorial(1) == Success(1)
    ensures Factorial(5) == Success(120) && Factorial(6) == Success(720)
    ensures Factorial(-1) == Failure(IllegalArgumentOf(MsgNegativeFactorial))
  {
    FactorialExactUpTo20(5);
    FactorialExactUpTo20(6);
  }

  /** `add` overflows like the JVM: Int.MAX_VALUE + 1 is Int.MIN_VALUE. */
  lemma AddOverflowWraps()
    ensures Add(0x7FFF_FFFF, 1) == -0x8000_0000
  {
  }
}
