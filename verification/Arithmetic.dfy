/** Facts about division that several modules need. */
module Arithmetic {

  lemma MulNonNegative(d: nat, e: nat)
    ensures 0 <= d * e
  {
  }

  lemma MulGap(d: nat, a: nat, b: nat)
    requires b < a
    ensures d * b + d <= d * a
  {
    var e: nat := a - b - 1;
    calc {
      d * a;
      d * (b + 1 + e);
      d * b + d * 1 + d * e;
    }
    MulNonNegative(d, e);
  }

  lemma DivModUnique(x: nat, q: nat, t: nat, r: nat)
    requires r < q && x == q * t + r
    ensures x / q == t && x % q == r
  {
    var y, s := x / q, x % q;
    assert x == q * y + s;
    if y < t {
      MulGap(q, t, y);
    } else if t < y {
      MulGap(q, y, t);
    }
  }

  lemma Regroup(q: nat, t: nat, r: nat, b: nat)
    ensures (q * t + r) * b == q * (t * b) + r * b
  {
    assert (q * t) * b == q * (t * b);
  }

  lemma Gather(q: nat, x: nat, y: nat)
    ensures q * x + q * y == q * (x + y)
  {
  }

  // Reducing before multiplying does not change the residue.
  lemma ModCancel(q: nat, a: nat, b: nat)
    requires 0 < q
    ensures (a % q) * b % q == a * b % q
  {
    var t, r := a / q, a % q;
    Regroup(q, t, r, b);
    ghost var x, y := t * b, r * b;
    Gather(q, x, y / q);
    DivModUnique(a * b, q, x + y / q, y % q);
  }

  lemma Rotate(a: nat, b: nat, c: nat)
    ensures (a * b) * c == (b * c) * a
  {
  }

}
