/**
 * lab03 `recursion.py`: recursive factorial and the naive recursive
 * Fibonacci numbers.  Both raise `ValueError` for a negative argument; here
 * that is the `Failure` side of a `Result`.
 */
module Recursion {
  import opened Wrappers

  /** `factorial` on the arguments it accepts: `0! = 1! = 1`, `n! = n * (n-1)!`. */
  function Fact(n: nat): (r: nat)
    ensures r >= 1 && r >= n
  {
    if n == 0 || n == 1 then 1 else n * Fact(n - 1)
  }

  /** `factorial(n)`: `ValueError` below zero, otherwise `n!`. */
  function Factorial(n: int): (r: Result<nat, Error>)
    ensures r.Failure? <==> n < 0
    ensures r.Success? ==> r.value >= 1
  {
    if n < 0 then Failure(ValueError("n must be >= 0")) else Success(Fact(n))
  }

  /** The recursion step holds from 2 on, and the two base cases agree. */
  lemma FactorialSteps(n: nat)
    ensures Factorial(0) == Factorial(1) == Success(1)
    ensures n >= 2 ==> Factorial(n) == Success(n * Factorial(n - 1).value)
  {
  }

  /** `fibonacci_naive` on the arguments it accepts. */
  function Fib(n: nat): (r: nat)
  {
    if n == 0 then 0 else if n == 1 then 1 else Fib(n - 1) + Fib(n - 2)
  }

  /** `fibonacci_naive(n)`: `ValueError` below zero, otherwise `F(n)`. */
  function FibonacciNaive(n: int): (r: Result<nat, Error>)
    ensures r.Failure? <==> n < 0
  {
    if n < 0 then Failure(ValueError("n must be >= 0")) else Success(Fib(n))
  }

  /** `F(0) = 0`, `F(1) = 1` and `F(n) = F(n-1) + F(n-2)` from 2 on. */
  lemma FibonacciNaiveSteps(n: nat)
    ensures FibonacciNaive(0) == Success(0) && FibonacciNaive(1) == Success(1)
    ensures n >= 2 ==> FibonacciNaive(n) == Success(FibonacciNaive(n - 1).value + FibonacciNaive(n - 2).value)
  {
  }

  /** The Fibonacci numbers never decrease, and grow from 2 on. */
  lemma {:induction false} FibMonotone(m: nat, n: nat)
    requires m <= n
    ensures Fib(m) <= Fib(n)
    ensures 2 <= m < n ==> Fib(m) < Fib(n)
    decreases n
  {
    if m < n {
      FibMonotone(m, n - 1);
      if n >= 2 {
        assert Fib(n) == Fib(n - 1) + Fib(n - 2);
        if n - 2 >= 1 {
          FibMonotone(1, n - 2);
        }
      }
    }
  }
}
