/** Division by a divisor that is not a literal, by repeated subtraction so that no proof needs non-linear arithmetic. */
module Arith {

  type Positive = n: nat | 0 < n witness 1

  lemma MulStep(a: int, m: int)
    ensures (a + 1) * m == a * m + m
  {
  }

  lemma MulNonNegative(a: nat, m: nat)
    ensures 0 <= a * m
  {
  }

  lemma MulAtLeast(a: int, m: Positive)
    requires 1 <= a
    ensures m <= a * m
  {
    MulStep(a - 1, m);
    MulNonNegative(a - 1, m);
  }

  lemma MulBelow(a: int, m: Positive)
    requires a <= -1
    ensures a * m + m <= 0
  {
    MulAtLeast(-a, m);
    assert (-a) * m == -(a * m);
  }

  /** `/` and `%` of C, which truncate toward zero (section 6.5.5 of ISO/IEC 9899:2011). */
  function CDiv(a: int, b: Positive): (q: int)
    ensures 0 <= a ==> 0 <= q
    decreases if 0 <= a then a else -a
  {
    if b <= a then CDiv(a - b, b) + 1 else if a + b <= 0 then CDiv(a + b, b) - 1 else 0
  }

  function CMod(a: int, b: Positive): (r: int)
    ensures 0 < r + b && r < b && (0 <= a ==> 0 <= r) && (a <= 0 ==> r <= 0)
    decreases if 0 <= a then a else -a
  {
    if b <= a then CMod(a - b, b) else if a + b <= 0 then CMod(a + b, b) else a
  }

  lemma {:induction false} CDivMod(a: int, b: Positive)
    ensures a == CDiv(a, b) * b + CMod(a, b)
    decreases if 0 <= a then a else -a
  {
    if b <= a {
      CDivMod(a - b, b);
      MulStep(CDiv(a - b, b), b);
    } else if a + b <= 0 {
      CDivMod(a + b, b);
      MulStep(CDiv(a, b), b);
    }
  }

  lemma {:induction false} CDivUnique(a: nat, q: int, r: int, b: Positive)
    requires a == q * b + r && 0 <= r < b
    ensures CDiv(a, b) == q && CMod(a, b) == r
    decreases a
  {
    if q < 0 {
      MulBelow(q, b);
      assert false;
    } else if q == 0 {
      assert a == r;
    } else {
      MulAtLeast(q, b);
      MulStep(q - 1, b);
      CDivUnique(a - b, q - 1, r, b);
    }
  }

  lemma {:induction false} ModAdd(a: nat, b: nat, m: Positive)
    ensures CMod(CMod(a, m) + b, m) == CMod(a + b, m)
    decreases a
  {
    if m <= a {
      ModAdd(a - m, b, m);
    }
  }

  lemma {:induction false} ModShift(a: nat, q: nat, m: Positive)
    ensures 0 <= q * m && CMod(q * m + a, m) == CMod(a, m)
    decreases q
  {
    MulNonNegative(q, m);
    if q != 0 {
      MulStep(q - 1, m);
      ModShift(a, q - 1, m);
      assert CMod(q * m + a, m) == CMod((q - 1) * m + a, m);
    }
  }

  lemma {:induction false} ModDistinct(a: nat, b: nat, m: Positive)
    requires a < b < a + m
    ensures CMod(a, m) != CMod(b, m)
    decreases a
  {
    if m <= a {
      ModDistinct(a - m, b - m, m);
    }
  }
}
