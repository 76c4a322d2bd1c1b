/** Division by a variable, for the proofs that need it. */
module Arithmetic {

  lemma {:induction false} MulAtLeast(a: nat, p: nat)
    requires a >= 1
    ensures a * p >= p
  {
  }

  /** Quotient and remainder are unique. */
  lemma DivisionUnique(n: nat, p: nat, q: nat, r: nat)
    requires p > 0 && n == q * p + r && r < p
    ensures n / p == q && n % p == r
  {
    var q', r' := n / p, n % p;
    assert n == q' * p + r';
    assert (q - q') * p == q * p - q' * p;
    if q' < q { MulAtLeast(q - q', p); }
    if q < q' { MulAtLeast(q' - q, p); }
  }

  /** Counting `n` steps around a circle of `p` places, from place 0. */
  function Cycle(n: nat, p: nat): (r: nat)
    requires p > 0
    ensures r < p
  {
    if n == 0 || Cycle(n - 1, p) + 1 == p then 0 else Cycle(n - 1, p) + 1
  }

  lemma {:induction false} CycleIsRemainder(n: nat, p: nat) returns (q: nat)
    requires p > 0
    ensures n == q * p + Cycle(n, p) && Cycle(n, p) == n % p
  {
    if n == 0 {
      q := 0;
    } else {
      q := CycleIsRemainder(n - 1, p);
      if Cycle(n, p) == 0 {
        assert (q + 1) * p == q * p + p;
        q := q + 1;
      }
    }
    DivisionUnique(n, p, q, Cycle(n, p));
  }

  lemma {:induction false} CycleAfter(n: nat, d: nat, p: nat)
    requires p > 0 && d < p
    ensures Cycle(n + d, p) == if Cycle(n, p) + d < p then Cycle(n, p) + d else Cycle(n, p) + d - p
  {
    if d > 0 { CycleAfter(n, d - 1, p); }
  }
}
