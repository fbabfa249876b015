/** Shared facts about natural numbers. */
module Arithmetic {
  /** The numbers below `n`. */
  function UpTo(n: nat): (r: set<nat>)
    ensures forall i: nat :: i in r <==> i < n
    ensures |r| == n
  {
    if n == 0 then {} else UpTo(n - 1) + {n - 1}
  }

  lemma MulPositive(a: nat, b: nat)
    requires a > 0 && b > 0
    ensures a * b > 0
  {
  }

  lemma DivModUnique(a: nat, q: nat, r: nat, n: nat)
    requires a == n * q + r && r < n
    ensures a / n == q && a % n == r
  {
    var q', r' := a / n, a % n;
    assert a == n * q' + r';
    if q < q' {
      MulStep(n, q, q');
    } else if q' < q {
      MulStep(n, q', q);
    }
  }

  lemma MulStep(n: nat, a: nat, b: nat)
    requires a < b
    ensures n * a + n <= n * b
  {
    var e: nat := b - a - 1;
    assert b == a + 1 + e;
    assert n * (a + 1 + e) == n * a + n + n * e;
  }

  lemma DivDiv(a: nat, m: nat, n: nat)
    requires m > 0 && n > 0
    ensures m * n > 0 && a / (m * n) == (a / m) / n
  {
    var q, r := a / m, a % m;
    var q', r' := q / n, q % n;
    MulPositive(m, n);
    calc {
      a;
      m * q + r;
      m * (n * q' + r') + r;
      { assert m * (n * q' + r') == m * (n * q') + m * r'; assert m * (n * q') == (m * n) * q'; }
      (m * n) * q' + (m * r' + r);
    }
    MulStep(m, r', n);
    DivModUnique(a, q', m * r' + r, m * n);
  }

  lemma DivBelow(a: nat, m: nat, n: nat)
    requires a < m * n && m > 0
    ensures a / m < n
  {
  }

  /** Powers of two. */
  function Two(n: nat): (p: nat)
    ensures p > 0
  {
    if n == 0 then 1 else 2 * Two(n - 1)
  }

  lemma {:induction false} TwoTo(a: nat, b: nat)
    ensures Two(a + b) == Two(a) * Two(b)
  {
    if a > 0 { TwoTo(a - 1, b); }
  }
}
