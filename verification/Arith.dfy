/** Division with remainder by variable divisors. */
module Arith {
  function Quot(x: nat, n: nat): nat
    requires n > 0
  {
    x / n
  }

  function Rem(x: nat, n: nat): nat
    requires n > 0
  {
    x % n
  }

  lemma {:induction false} MulMore(a: int, b: int, n: nat)
    requires a < b
    ensures a * n + n <= b * n
  {
    var d := b - a;
    assert b * n == a * n + d * n;
    assert d * n == (d - 1) * n + n;
    assert (d - 1) * n >= 0;
  }

  lemma {:induction false} Split(x: nat, n: nat)
    requires n > 0
    ensures x == Quot(x, n) * n + Rem(x, n) && Rem(x, n) < n
  {}

  lemma {:induction false} Unique(q: int, r: nat, p: int, s: nat, n: nat)
    requires q * n + r == p * n + s && r < n && s < n
    ensures q == p && r == s
  {
    if q < p { MulMore(q, p, n); }
    if p < q { MulMore(p, q, n); }
  }

  lemma {:induction false} DivMod(g: nat, n: nat, i: nat)
    requires i < n
    ensures Quot(g * n + i, n) == g && Rem(g * n + i, n) == i
  {
    var x := g * n + i;
    Split(x, n);
    Unique(Quot(x, n), Rem(x, n), g, i, n);
  }

  lemma {:induction false} Grows(g: nat, n: nat)
    requires n > 0
    ensures g <= g * n
  {}
}
