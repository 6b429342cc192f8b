/** Fibonacci numbers with the convention F(0) = F(1) = 1, as used by the
    Fibonacci search for its ratio table. */
module Fibonacci {

  /** `fibonacci_of`: F(0) = F(1) = 1 and F(n) = F(n-1) + F(n-2) from n = 2.
      Every value is at least 1 and at least its index. */
  function Fib(n: nat): (r: nat)
    ensures r >= 1
    ensures r >= n
  {
    if n < 2 then 1 else Fib(n - 1) + Fib(n - 2)
  }

  /** The convention fixes the tenth value at 89 (it would be 55 with F(0) = 0). */
  lemma FibTen()
    ensures Fib(10) == 89
  {
  }

  /** From index 1 on, the sequence is strictly increasing. */
  lemma {:induction false} FibStrictlyIncreasing(i: nat, j: nat)
    requires 1 <= i < j
    ensures Fib(i) < Fib(j)
  {
    if j > i + 1 {
      FibStrictlyIncreasing(i, j - 1);
    }
  }

  /** From index 0 on, the sequence never decreases. */
  lemma FibMonotone(i: nat, j: nat)
    requires i <= j
    ensures Fib(i) <= Fib(j)
  {
    if 1 <= i < j {
      FibStrictlyIncreasing(i, j);
    } else if i == 0 && j > 0 {
      assert Fib(0) <= Fib(1);
      if j > 1 {
        FibStrictlyIncreasing(1, j);
      }
    }
  }

  /** `fibonacci_seq`: the table F(0), ..., F(n), built bottom-up. */
  method FibonacciSeq(n: nat) returns (s: seq<nat>)
    ensures |s| == n + 1
    ensures forall i :: 0 <= i <= n ==> s[i] == Fib(i)
  {
    s := [1];
    while |s| < n + 1
      invariant 1 <= |s| <= n + 1
      invariant forall i :: 0 <= i < |s| ==> s[i] == Fib(i)
    {
      var next := if |s| < 2 then 1 else s[|s| - 1] + s[|s| - 2];
      assert next == Fib(|s|);
      s := s + [next];
    }
  }
}
