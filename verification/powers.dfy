/** Powers and the division facts that the address proofs need. */
module Powers {
  function Pow(base: nat, e: nat): (p: nat)
    ensures base > 0 ==> p > 0
  {
    if e == 0 then 1 else base * Pow(base, e - 1)
  }

  lemma {:induction false} PowAdd(base: nat, a: nat, b: nat)
    ensures Pow(base, a + b) == Pow(base, a) * Pow(base, b)
  {
    if a > 0 {
      PowAdd(base, a - 1, b);
      MulAssoc(base, Pow(base, a - 1), Pow(base, b));
    }
  }

  lemma {:induction false} MulAssoc(a: nat, b: nat, c: nat)
    ensures a * (b * c) == (a * b) * c
  {
  }

  lemma {:induction false} SixteenIsTwoToTheFourth(e: nat)
    ensures Pow(2, 4 * e) == Pow(16, e)
  {
    if e > 0 {
      SixteenIsTwoToTheFourth(e - 1);
      assert Pow(2, 4 * e) == 2 * Pow(2, 4 * e - 1);
      assert Pow(2, 4 * e - 1) == 2 * Pow(2, 4 * e - 2);
      assert Pow(2, 4 * e - 2) == 2 * Pow(2, 4 * e - 3);
      assert Pow(2, 4 * e - 3) == 2 * Pow(2, 4 * (e - 1));
    }
  }

  lemma {:induction false} DivideOff(high: nat, low: nat, m: nat)
    requires low < m
    ensures (high * m + low) / m == high
  {
    var q := (high * m + low) / m;
    var r := (high * m + low) % m;
    assert high * m + low == q * m + r;
    if q > high {
      assert q * m - high * m == (q - high) * m;
      MulAtLeast(q - high, m);
    } else if q < high {
      assert high * m - q * m == (high - q) * m;
      MulAtLeast(high - q, m);
    }
  }

  lemma {:induction false} MulAtLeast(a: nat, m: nat)
    requires a >= 1
    ensures a * m >= m
  {
  }

  lemma {:induction false} Recompose(q: nat, b: nat, r2: nat, a: nat, r1: nat)
    ensures (q * b + r2) * a + r1 == q * (a * b) + (r2 * a + r1)
  {
    assert (q * b + r2) * a == (q * b) * a + r2 * a;
    MulAssoc(q, b, a);
    assert b * a == a * b;
  }

  lemma {:induction false} RemainderBelow(r2: nat, b: nat, a: nat, r1: nat)
    requires r2 < b && r1 < a
    ensures r2 * a + r1 < a * b
  {
    MulAtLeast(b - r2, a);
    assert (b - r2) * a == b * a - r2 * a;
  }

  lemma {:induction false} QuotientAndRemainder(x: nat, m: nat)
    requires m > 0
    ensures x == x / m * m + x % m && x % m < m
  {
  }

  lemma {:induction false} PositiveProduct(a: nat, b: nat)
    requires a > 0 && b > 0
    ensures a * b > 0
  {
    MulAtLeast(a, b);
  }

  /** Dividing by a product is dividing twice. */
  lemma {:induction false} DivideTwice(x: nat, a: nat, b: nat)
    requires a > 0 && b > 0
    ensures a * b > 0 && x / (a * b) == x / a / b
  {
    PositiveProduct(a, b);
    var y := x / a;
    var q, r2, r1 := y / b, y % b, x % a;
    QuotientAndRemainder(x, a);
    QuotientAndRemainder(y, b);
    Recompose(q, b, r2, a, r1);
    RemainderBelow(r2, b, a, r1);
    DivideOff(q, r2 * a + r1, a * b);
  }
}
