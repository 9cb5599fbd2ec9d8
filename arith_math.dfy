/** Facts about integer division that the arithmetic coder's proofs rest on. */
module ArithMath {

  /** Division by `p` is determined by the quotient and a remainder below `p`. */
  lemma {:induction false} DivUnique(a: nat, p: nat, q: nat, r: nat)
    requires p >= 1 && r < p && a == p * q + r
    ensures a / p == q
  {
    var d, m := a / p, a % p;
    assert a == p * d + m && m < p;
    MulStep(p, d, q);
    MulStep(p, q, d);
  }

  lemma {:induction false} MulStep(p: nat, a: nat, b: nat)
    ensures a >= b + 1 ==> p * a >= p * b + p
  {
    if a >= b + 1 {
      MulMono(p, b + 1, a);
      assert p * (b + 1) == p * b + p;
    }
  }

  lemma MulMono(p: nat, a: nat, b: nat)
    requires a <= b
    ensures p * a <= p * b
  {
  }

  lemma MulAssoc(a: int, b: int, c: int)
    ensures (a * b) * c == a * (b * c)
  {
  }

  /** Halving, then dividing by `p`, is dividing by `2 p`. */
  lemma {:induction false} DivDiv(x: nat, p: nat)
    requires p >= 1
    ensures x / (2 * p) == (x / 2) / p
  {
    var p2 := 2 * p;
    var q, r := x / p2, x % p2;
    assert x == p2 * q + r && r < p2;
    var pq := p * q;
    assert p2 * q == 2 * pq by { MulAssoc(2, p, q); }
    var h, b := r / 2, r % 2;
    assert r == 2 * h + b && h < p;
    assert x == 2 * (pq + h) + b;
    DivUnique(x, 2, pq + h, b);
    DivUnique(x / 2, p, q, h);
  }

  /** `x <= y / t` exactly when `x * t <= y`. */
  lemma {:induction false} DivLeIff(x: nat, y: nat, t: nat)
    requires t >= 1
    ensures x <= y / t <==> x * t <= y
  {
    var q, r := y / t, y % t;
    assert y == t * q + r && r < t;
    MulStep(t, x, q);
    if x <= q {
      MulMono(t, x, q);
    }
  }

  lemma {:induction false} DivMono(a: nat, b: nat, t: nat)
    requires t >= 1 && a <= b
    ensures a / t <= b / t
  {
    DivLeIff(a / t, a, t);
    DivLeIff(a / t, b, t);
  }

  lemma {:induction false} DivPlus(a: nat, t: nat)
    requires t >= 1
    ensures (a + t) / t == a / t + 1
  {
    var q, r := a / t, a % t;
    assert a + t == t * (q + 1) + r;
    DivUnique(a + t, t, q + 1, r);
  }

  lemma {:induction false} DivMulCancel(x: nat, t: nat)
    requires t >= 1
    ensures (x * t) / t == x
  {
    DivUnique(x * t, t, x, 0);
  }
}
