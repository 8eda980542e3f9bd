# Verified model of the demonstration utility library

This project models the small utility library of a Python demonstration application
(`app.py`). The library has six stateless operations. Four are simple expressions or
guards: integer addition, integer multiplication, division that rejects a zero divisor,
and a greeting template. The other two are loops: an iterative factorial and a
trial-division primality test.

The Dafny module `App` (`app.dfy`) holds the whole model. `Wrappers` (`wrappers.dfy`)
holds the `Result` type. This type stands for a Python call that either returns a value
or raises `ValueError` with a given message.

- `Add`, `Multiply`, `Divide` and `Greet` are functions. Their laws are proved as lemmas.
- `CalculateFactorial` is a method with a `for` loop over `2..n`. It is proved to return
  the recursive factorial `Fact(n)` and to raise exactly when `n < 0`.
- `IsPrime` is a method with a `while` loop that returns early. It is proved equal to
  `IsPrimeSpec(n)`: `n >= 2` and no `d` in `[2, n-1]` divides `n`.
- `RootBoundSuffices` is the key lemma. For `n >= 2`, trial division up to the integer
  square root decides primality. Its proof pairs every divisor above the root with a
  co-divisor below it.
- Both raising operations raise `ValueError`, because that is what the code does. The
  model follows the code and keeps the code's messages.

## Model

| member | source | states |
|---|---|---|
| `App.Add` | app.py:3-5 | the sum of two integers: subtracting either operand from it gives back the other |
| `App.Multiply` | app.py:7-9 | the product of two integers: dividing it by either non-zero operand gives back the other exactly |
| `App.AddLaws` | app.py:3-5 | integer addition is commutative and has 0 as identity on both sides |
| `App.MultiplyLaws` | app.py:7-9 | integer multiplication is commutative, 1 is its identity, 0 absorbs |
| `App.ArithmeticExamples` | test_app.py:9-19 | the tested sums and products, including (2 + 3) * 4 = 20 |
| `App.Divide` | app.py:11-15 | fails with ValueError("Cannot divide by zero") exactly when the divisor is 0 (the check comes before any division); otherwise the quotient times the divisor gives back the dividend. Integer operands only, and no OverflowError for operands beyond the float range (see Left out) |
| `App.DivideUnique` | app.py:15 | the quotient returned is the only number with that property, so it is fully determined |
| `App.DivideExamples` | test_app.py:21-30 | 10/2 = 5, 9/3 = 3, -6/2 = -3, dividing 5 by 0 fails, and 10/2 + 3 = 8 |
| `App.Greet` | app.py:17-19 | the greeting has the template's length plus the name's length; "Hello" starts it, the name appears verbatim right after "Hello, ", and "Welcome" follows the name |
| `App.GreetContains` | app.py:19 | every greeting contains its name, "Hello" and "Welcome" as substrings, including for the empty name |
| `App.GreetInjective` | app.py:19 | two names with the same greeting are equal, so the name can be read back from the greeting |
| `App.GreetExamples` | test_app.py:66-79 | the greetings for "Alice", "" and "John-Doe_123" contain what the tests look for |
| `App.Fact` | app.py:21-30 | the mathematical factorial is at least 1 for every natural number |
| `App.FactExamples` | test_app.py:32-37 | 0! = 1, 1! = 1, 3! = 6, 5! = 120 |
| `App.CalculateFactorial` | app.py:21-30 | fails with ValueError("Factorial is not defined for negative numbers") exactly when n < 0; otherwise returns Fact(n), with 0 and 1 handled before the loop |
| `App.RootBoundSuffices` | app.py:36-39 | for n >= 2, n has no divisor in [2, n-1] if and only if it has no divisor d >= 2 with d * d <= n |
| `App.IsPrime` | app.py:32-39 | returns true exactly when n >= 2 and no d in [2, n-1] divides n; this includes false for every n < 2. Exact integer root bound, and no OverflowError for n beyond the float range (see Left out) |
| `App.PrimeExamples` | test_app.py:43-62 | 2, 3, 5, 7 and 11 are prime; 1, 4, 6, 8, 9, 10, 0 and -5 are not |

## Left out

- `main` (app.py:41-80) only prints a fixed demonstration to the console. Console output is not modelled.
- The unit-test harness and its console output are not modelled. The tests' expected values appear as the `...Examples` lemmas.
- `App.Divide`: takes only `int` operands, while the source also accepts floats. It returns the exact rational quotient (`real`). It does not model Python's floating-point rounding, for example 7/3 read as 2.333333333333333. It also does not model the `OverflowError` the source raises when an integer quotient falls outside the float range (about 1.8e308), for example when dividing 10**400 by 1. The model returns `Ok` there.
- `App.IsPrime`: loops while `i * i <= n`, which is the exact integer square-root bound. The source computes `int(n ** 0.5)` in floating point, and for very large `n` that value may differ from the exact root. For `n` beyond the float range (about 1.8e308, for example 2**1100), `n ** 0.5` raises `OverflowError` in the source. The model does not raise there and returns the mathematical answer.
- `App.Add`, `App.Multiply`: integers only. Python's mixing of integer and float operands is not modelled.
