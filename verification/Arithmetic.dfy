/** Division and multiplication facts that the file layouts and tables use. */
module Arithmetic {

  lemma MulMod(q: nat, a: nat)
    requires a > 0
    ensures (a * q) % a == 0
  {
    if q > 0 {
      MulMod(q - 1, a);
      assert a * q == a * (q - 1) + a;
      AddMod(a * (q - 1), a);
    }
  }

  lemma AddMod(x: nat, a: nat)
    requires a > 0
    ensures (x + a) % a == x % a
  {
    var q, r := x / a, x % a;
    assert x + a == a * (q + 1) + r;
    ModUnique(x + a, a, q + 1, r);
  }

  lemma ModUnique(x: nat, a: nat, q: int, r: nat)
    requires a > 0 && x == a * q + r && r < a
    ensures x % a == r && x / a == q
  {
    SameDivision(a, x / a, x % a, q, r);
  }

  lemma SameDivision(a: nat, p: int, s: nat, q: int, r: nat)
    requires s < a && r < a && a * p + s == a * q + r
    ensures p == q && s == r
  {
    Distribute(a, p, q);
    if p > q {
      AtLeastOnce(a, p - q);
    } else if p < q {
      AtLeastOnce(a, q - p);
    }
  }

  lemma Distribute(a: int, p: int, q: int)
    ensures a * (p - q) == a * p - a * q && a * (q - p) == a * q - a * p
  {
  }

  lemma AtLeastOnce(a: nat, d: nat)
    requires d >= 1
    ensures a * d >= a
  {
  }

  lemma Ordered(a: int, b: int, n: nat)
    requires a <= b
    ensures a * n <= b * n
  {
  }
}
