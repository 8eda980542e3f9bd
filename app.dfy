/**
  The utility library of the demonstration application: addition, multiplication,
  guarded division, a greeting template, an iterative factorial and a trial-division
  primality test. Python integers are unbounded, so every integer here is an `int`.
 */
module App {
  import opened Wrappers

  const DivideByZeroMessage := "Cannot divide by zero"
  const NegativeFactorialMessage := "Factorial is not defined for negative numbers"
  const GreetingPrefix := "Hello, "
  // Written in three pieces so that the verifier can locate "Welcome" inside it.
  const GreetingSuffix := "! " + "Welcome" + " to our Jenkins CI/CD pipeline!"

  // ---------------------------------------------------------------------------
  // Addition and multiplication (integers only)
  // ---------------------------------------------------------------------------

  /** The sum: subtracting either operand from it gives back the other. */
  function Add(a: int, b: int): (r: int)
    ensures r - b == a && r - a == b
  {
    a + b
  }

  /** The product: dividing it by a non-zero operand gives back the other exactly. */
  function Multiply(a: int, b: int): (r: int)
    ensures b != 0 ==> Divide(r, b) == Ok(a as real)
    ensures a != 0 ==> Divide(r, a) == Ok(b as real)
  {
    ProductQuotient(a, b);
    ProductQuotient(b, a);
    a * b
  }

  /** Dividing a product exactly by a non-zero factor leaves the other factor. */
  lemma ProductQuotient(a: int, b: int)
    ensures b != 0 ==> (a * b) as real / (b as real) == a as real
  {
    if b != 0 {
      var x, y := a as real, b as real;
      assert (a * b) as real == x * y;
      assert x * y / y == x;
    }
  }

  /** Addition is commutative and has 0 as its identity. */
  lemma AddLaws(a: int, b: int)
    ensures Add(a, b) == Add(b, a)
    ensures Add(a, 0) == a && Add(0, a) == a
  {
  }

  /** Multiplication is commutative, has 1 as its identity and 0 as its absorbing element. */
  lemma MultiplyLaws(a: int, b: int)
    ensures Multiply(a, b) == Multiply(b, a)
    ensures Multiply(a, 1) == a && Multiply(a, 0) == 0
  {
  }

  /** The expected values the unit tests check for addition and multiplication. */
  lemma ArithmeticExamples()
    ensures Add(2, 3) == 5 && Add(-1, 1) == 0 && Add(0, 0) == 0 && Add(-5, -3) == -8
    ensures Add(999999, 1) == 1000000
    ensures Multiply(3, 4) == 12 && Multiply(-2, 3) == -6
    ensures Multiply(0, 5) == 0 && Multiply(-2, -3) == 6
    ensures Multiply(Add(2, 3), 4) == 20
  {
    // Products of negative literals need these steps on some solver seeds.
    assert Multiply(-2, 3) == -6;
    assert Multiply(-2, -3) == 6;
    assert Multiply(Add(2, 3), 4) == Multiply(5, 4) == 20;
  }

  // ---------------------------------------------------------------------------
  // Division
  // ---------------------------------------------------------------------------

  /**
    Division with the zero-divisor guard checked before anything is divided.
    The quotient is the exact rational one, an abstraction of a Python float.
   */
  function Divide(a: int, b: int): (r: Result<real>)
    ensures r.Err? <==> b == 0
    ensures r.Err? ==> r.error == ValueError(DivideByZeroMessage)
    ensures r.Ok? ==> r.value * (b as real) == a as real
  {
    if b == 0 then Err(ValueError(DivideByZeroMessage))
    else Ok(a as real / b as real)
  }

  /** The quotient is the only number that, multiplied by the divisor, gives back the dividend. */
  lemma DivideUnique(a: int, b: int, q: real)
    requires b != 0 && q * (b as real) == a as real
    ensures Divide(a, b) == Ok(q)
  {
    var r := Divide(a, b).value;
    assert r == r * (b as real) / (b as real);
    assert q == q * (b as real) / (b as real);
  }

  /** The expected values the unit tests check for division. */
  lemma DivideExamples()
    ensures Divide(10, 2) == Ok(5.0) && Divide(9, 3) == Ok(3.0) && Divide(-6, 2) == Ok(-3.0)
    ensures Divide(5, 0) == Err(ValueError(DivideByZeroMessage))
    ensures Divide(10, 2).value + 3.0 == 8.0
  {
  }

  // ---------------------------------------------------------------------------
  // Greeting
  // ---------------------------------------------------------------------------

  /** `p` occurs in `s` starting at index `i`. */
  predicate OccursAt(p: string, s: string, i: int)
  {
    0 <= i && i + |p| <= |s| && s[i..i + |p|] == p
  }

  /** `p` is a contiguous piece of `s`. */
  ghost predicate Contains(s: string, p: string)
  {
    exists i :: OccursAt(p, s, i)
  }

  /** The greeting template with the name inserted verbatim, without validation or escaping. */
  function Greet(name: string): (r: string)
    ensures |r| == |GreetingPrefix| + |name| + |GreetingSuffix|
    ensures OccursAt("Hello", r, 0)
    ensures OccursAt(name, r, |GreetingPrefix|)
    ensures OccursAt("Welcome", r, |GreetingPrefix| + |name| + 2)
  {
    var r := GreetingPrefix + name + GreetingSuffix;
    var k := |GreetingPrefix| + |name|;
    assert r[k..] == GreetingSuffix;
    assert r[k + 2..k + 9] == GreetingSuffix[2..9] == "Welcome";
    r
  }

  /** Every greeting contains the name it was made from, "Hello" and "Welcome". */
  lemma GreetContains(name: string)
    ensures Contains(Greet(name), name)
    ensures Contains(Greet(name), "Hello")
    ensures Contains(Greet(name), "Welcome")
  {
  }

  /** Distinct names give distinct greetings: the name can be read back from the greeting. */
  lemma GreetInjective(a: string, b: string)
    requires Greet(a) == Greet(b)
    ensures a == b
  {
  }

  /** The names the unit tests greet all appear in their greetings. */
  lemma GreetExamples()
    ensures Contains(Greet("Alice"), "Alice") && Contains(Greet("Alice"), "Hello")
    ensures Contains(Greet("Alice"), "Welcome")
    ensures Contains(Greet(""), "Hello")
    ensures Contains(Greet("John-Doe_123"), "John-Doe_123")
  {
  }

  // ---------------------------------------------------------------------------
  // Factorial
  // ---------------------------------------------------------------------------

  /** The mathematical factorial, by recursion. */
  function Fact(n: nat): (r: nat)
    ensures r >= 1
  {
    if n == 0 then 1 else n * Fact(n - 1)
  }

  /** The values the unit tests expect from the factorial. */
  lemma FactExamples()
    ensures Fact(0) == 1 && Fact(1) == 1 && Fact(3) == 6 && Fact(5) == 120
  {
  }

  /**
    Rejects a negative argument; returns 1 for 0 and 1; otherwise multiplies an
    accumulator by every integer from 2 to n.
   */
  method CalculateFactorial(n: int) returns (r: Result<int>)
    ensures r.Err? <==> n < 0
    ensures r.Err? ==> r.error == ValueError(NegativeFactorialMessage)
    ensures r.Ok? ==> n >= 0 && r.value == Fact(n)
  {
    if n < 0 {
      return Err(ValueError(NegativeFactorialMessage));
    }
    if n == 0 || n == 1 {
      return Ok(1);
    }
    var result := 1;
    for i := 2 to n + 1
      invariant result == Fact(i - 1)
    {
      result := result * i;
    }
    return Ok(result);
  }

  // ---------------------------------------------------------------------------
  // Primality
  // ---------------------------------------------------------------------------

  /** `d` is a non-zero divisor of `n`. */
  predicate Divides(d: int, n: int)
  {
    d != 0 && n % d == 0
  }

  /** The mathematical definition: at least 2, and no divisor strictly between 1 and n. */
  predicate IsPrimeSpec(n: int)
  {
    n >= 2 && forall d :: 2 <= d < n ==> !Divides(d, n)
  }

  /** No divisor from 2 up to the integer square root of n. */
  ghost predicate NoDivisorUpToRoot(n: int)
  {
    forall d :: 2 <= d && d * d <= n ==> !Divides(d, n)
  }

  lemma SquareMonotone(a: int, b: int)
    requires 0 <= a <= b
    ensures a * a <= b * b
  {
  }

  /** A divisor above the square root has its co-divisor below it. */
  lemma CoDivisor(n: int, d: int) returns (q: int)
    requires 2 <= d < n && Divides(d, n) && d * d > n
    ensures 2 <= q && q * q <= n && Divides(q, n)
  {
    q := n / d;
    assert n == d * q;
    if q <= 1 {
      MultiplyMonotone(d, q, 1);
      assert false;
    }
    if q >= d {
      MultiplyMonotone(d, d, q);
      assert false;
    }
    MultiplyMonotone(q, q, d);
    MultipleDivisible(d, q);
  }

  lemma MultiplyMonotone(c: int, a: int, b: int)
    requires 0 <= c && a <= b
    ensures c * a <= c * b
  {
  }

  lemma MultipleDivisible(d: int, q: int)
    requires q > 0
    ensures (d * q) % q == 0
  {
    var m := d * q;
    var k, r := m / q, m % q;
    assert m == q * k + r && 0 <= r < q;
    var t := d - k;
    assert q * t == r by {
      assert q * t == q * d - q * k;
    }
    if t >= 1 {
      MultiplyMonotone(q, 1, t);
    } else if t <= -1 {
      MultiplyMonotone(q, t, -1);
    }
  }

  /** Trial division up to the square root decides primality for every n >= 2. */
  lemma RootBoundSuffices(n: int)
    requires n >= 2
    ensures IsPrimeSpec(n) <==> NoDivisorUpToRoot(n)
  {
    if IsPrimeSpec(n) {
      forall d | 2 <= d && d * d <= n
        ensures !Divides(d, n)
      {
        assert d < d * d;
      }
    }
    if NoDivisorUpToRoot(n) {
      forall d | 2 <= d < n
        ensures !Divides(d, n)
      {
        if Divides(d, n) && d * d > n {
          var q := CoDivisor(n, d);
          assert false;
        }
      }
    }
  }

  /** Returns false below 2, else false as soon as some i with i * i <= n divides n. */
  method IsPrime(n: int) returns (b: bool)
    ensures b <==> IsPrimeSpec(n)
  {
    if n < 2 {
      return false;
    }
    RootBoundSuffices(n);
    var i := 2;
    while i * i <= n
      invariant 2 <= i
      invariant forall d :: 2 <= d < i ==> !Divides(d, n)
      decreases n - i
    {
      assert i < i * i;
      if n % i == 0 {
        assert Divides(i, n);
        return false;
      }
      i := i + 1;
    }
    forall d | 2 <= d && d * d <= n
      ensures !Divides(d, n)
    {
      if d >= i {
        SquareMonotone(i, d);
      }
    }
    return true;
  }

  /** The primes and non-primes the unit tests and the demonstration list. */
  lemma PrimeExamples()
    ensures IsPrimeSpec(2) && IsPrimeSpec(3) && IsPrimeSpec(5) && IsPrimeSpec(7) && IsPrimeSpec(11)
    ensures !IsPrimeSpec(1) && !IsPrimeSpec(0) && !IsPrimeSpec(-5)
    ensures !IsPrimeSpec(4) && !IsPrimeSpec(6) && !IsPrimeSpec(8) && !IsPrimeSpec(9) && !IsPrimeSpec(10)
  {
    assert Divides(2, 4) && Divides(2, 6) && Divides(2, 8) && Divides(3, 9) && Divides(2, 10);
    forall p | p in {5, 7, 11}
      ensures IsPrimeSpec(p)
    {
      RootBoundSuffices(p);
      forall d | 2 <= d && d * d <= p
        ensures !Divides(d, p)
      {
        if d >= 4 {
          SquareMonotone(4, d);
        }
        if d == 2 {
        } else {
          assert d == 3;
        }
      }
    }
  }
}
