/** Facts about products, quotients and powers that the number-crunching modules share. */
module Arithmetic {

  lemma {:induction false} MulGrows(d: nat, q: nat)
    requires d > 0
    ensures d * q >= q
  {
    if q > 0 { MulGrows(d, q - 1); }
  }

  lemma {:induction false} MulMonotone(a: nat, b: nat, c: nat)
    requires a <= b
    ensures a * c <= b * c
  {
    if c > 0 { MulMonotone(a, b, c - 1); }
  }

  lemma MulStrict(a: nat, b: nat, c: nat)
    requires a < b && c > 0
    ensures a * c < b * c
  {
    MulMonotone(a + 1, b, c);
  }

  lemma Spread(k: int, b: nat)
    ensures k > 0 ==> k * b >= b
    ensures k < 0 ==> k * b + b <= 0
  {
    if k > 0 {
      MulMonotone(1, k, b);
    } else if k < 0 {
      MulMonotone(1, -k, b);
      assert (-k) * b == -(k * b);
    }
  }

  /** Quotient and remainder are the only way to split `a` along `b`. */
  lemma DivIs(a: int, b: nat, q: int, r: nat)
    requires b > 0 && r < b && a == q * b + r
    ensures a / b == q && a % b == r
  {
    var p := a / b;
    assert a == p * b + a % b;
    assert (p - q) * b == p * b - q * b;
    Spread(p - q, b);
  }

  lemma QuotientRemainder(a: int, b: nat)
    requires b > 0
    ensures a == a / b * b + a % b && 0 <= a % b < b
  {
  }

  lemma Regroup(a: int, b: int, c: int)
    ensures (a * b) * c == a * (b * c) == a * (c * b) == b * (a * c)
  {
  }

  lemma Commute(a: int, b: int)
    ensures a * b == b * a
  {
  }

  lemma Distribute(a: int, b: int, c: int)
    ensures (a + b) * c == a * c + b * c
  {
  }

  lemma MultipleOf(q: int, b: nat)
    requires b > 0
    ensures (q * b) % b == 0 && (q * b) / b == q
  {
    DivIs(q * b, b, q, 0);
  }

  /** What divides the divisor divides the multiple. */
  lemma DividesThrough(a: nat, b: nat, c: int)
    requires a > 0 && b > 0 && b % a == 0 && c % b == 0
    ensures c % a == 0
  {
    var p, q := b / a, c / b;
    assert b == p * a && c == q * b;
    assert c == (q * p) * a;
    MultipleOf(q * p, a);
  }

  lemma DividesDifference(a: nat, b: int, t: int)
    requires a > 0 && b % a == 0
    ensures (b - t * a) % a == 0
  {
    var p := b / a;
    assert b == p * a;
    assert b - t * a == (p - t) * a;
    MultipleOf(p - t, a);
  }

  /** `q` whole parts of `b` fit into `a` exactly when `q` is at most the quotient. */
  lemma FitsQuotient(a: nat, b: nat, q: nat)
    requires b > 0
    ensures q * b <= a <==> q <= a / b
  {
    var p := a / b;
    assert a == p * b + a % b;
    if q <= p {
      MulMonotone(q, p, b);
    } else {
      MulMonotone(p + 1, q, b);
      assert (p + 1) * b == p * b + b;
    }
  }

  lemma QuotientMonotone(a: nat, b: nat, c: nat)
    requires c > 0 && a <= b
    ensures a / c <= b / c
  {
    QuotientRemainder(a, c);
    FitsQuotient(b, c, a / c);
  }
}
