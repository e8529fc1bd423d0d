/** Unsigned machine words of an arbitrary width, as naturals below a power of two, with the C operators that the
    StarPU headers apply to them. Every operator is characterised bit by bit. */
module Words {
  import opened Arith

  function Pow2(n: nat): (p: Positive) {
    if n == 0 then 1 else 2 * Pow2(n - 1)
  }

  /** The bit of `w` at position `i`, counted from the least significant one. */
  predicate Bit(w: nat, i: nat) {
    if i == 0 then w % 2 == 1 else Bit(w / 2, i - 1)
  }

  /** `a & b` */
  function And(a: nat, b: nat): (r: nat) {
    if a == 0 || b == 0 then 0
    else 2 * And(a / 2, b / 2) + (if a % 2 == 1 && b % 2 == 1 then 1 else 0)
  }

  /** `a | b` */
  function Or(a: nat, b: nat): (r: nat) {
    if a == 0 then b else if b == 0 then a
    else 2 * Or(a / 2, b / 2) + (if a % 2 == 1 || b % 2 == 1 then 1 else 0)
  }

  /** `~w` on `width` bits */
  function Not(w: nat, width: nat): (r: nat)
    requires w < Pow2(width)
  {
    Pow2(width) - 1 - w
  }

  /** `w << 1` on `width` bits: the bit shifted out is lost. */
  function Double(w: nat, width: nat): (r: nat)
    requires w < Pow2(width)
    ensures r < Pow2(width)
  {
    if 2 * w < Pow2(width) then 2 * w else 2 * w - Pow2(width)
  }

  /** `w << k` on `width` bits */
  function Shl(w: nat, k: nat, width: nat): (r: nat)
    requires w < Pow2(width)
    ensures r < Pow2(width)
  {
    if k == 0 then w else Double(Shl(w, k - 1, width), width)
  }

  lemma {:induction false} BitAnd(a: nat, b: nat, i: nat)
    ensures Bit(And(a, b), i) <==> Bit(a, i) && Bit(b, i)
    decreases i
  {
    if a == 0 || b == 0 {
      ZeroHasNoBit(i);
    } else if i != 0 {
      BitAnd(a / 2, b / 2, i - 1);
    }
  }

  lemma {:induction false} BitOr(a: nat, b: nat, i: nat)
    ensures Bit(Or(a, b), i) <==> Bit(a, i) || Bit(b, i)
    decreases i
  {
    if a == 0 || b == 0 {
      ZeroHasNoBit(i);
    } else if i != 0 {
      BitOr(a / 2, b / 2, i - 1);
    }
  }

  lemma {:induction false} ZeroHasNoBit(i: nat)
    ensures !Bit(0, i)
  {
    if i != 0 {
      ZeroHasNoBit(i - 1);
    }
  }

  /** A word has no bit at or above its width. */
  lemma {:induction false} NoHighBit(w: nat, width: nat, i: nat)
    requires w < Pow2(width) && width <= i
    ensures !Bit(w, i)
    decreases width
  {
    if width == 0 {
      ZeroHasNoBit(i);
    } else {
      NoHighBit(w / 2, width - 1, i - 1);
    }
  }

  lemma {:induction false} BitNot(w: nat, width: nat, i: nat)
    requires w < Pow2(width)
    ensures Bit(Not(w, width), i) <==> i < width && !Bit(w, i)
    decreases width
  {
    if width <= i {
      NoHighBit(Not(w, width), width, i);
    } else if i != 0 {
      assert Not(w, width) / 2 == Not(w / 2, width - 1);
      BitNot(w / 2, width - 1, i - 1);
    }
  }

  /** Taking off the top power of two keeps the bits below it. */
  lemma {:induction false} BitLow(w: nat, width: nat, i: nat)
    requires Pow2(width) <= w < 2 * Pow2(width)
    ensures Bit(w - Pow2(width), i) <==> i < width && Bit(w, i)
    decreases width
  {
    if width <= i {
      NoHighBit(w - Pow2(width), width, i);
    } else if i != 0 {
      assert (w - Pow2(width)) / 2 == w / 2 - Pow2(width - 1);
      BitLow(w / 2, width - 1, i - 1);
    }
  }

  lemma BitDouble(w: nat, width: nat, i: nat)
    requires w < Pow2(width)
    ensures Bit(Double(w, width), i) <==> 1 <= i < width && Bit(w, i - 1)
  {
    if 2 * w < Pow2(width) {
      if width <= i {
        NoHighBit(2 * w, width, i);
      }
    } else {
      BitLow(2 * w, width, i);
    }
  }

  lemma {:induction false} BitShl(w: nat, k: nat, width: nat, i: nat)
    requires w < Pow2(width)
    ensures Bit(Shl(w, k, width), i) <==> k <= i < width && Bit(w, i - k)
    decreases k
  {
    if k == 0 {
      if width <= i {
        NoHighBit(w, width, i);
      }
    } else {
      BitDouble(Shl(w, k - 1, width), width, i);
      if i != 0 {
        BitShl(w, k - 1, width, i - 1);
      }
    }
  }

  lemma {:induction false} BitOne(i: nat)
    ensures Bit(1, i) <==> i == 0
  {
    if i != 0 {
      ZeroHasNoBit(i - 1);
    }
  }

  /** The mask `1ul << k` */
  lemma BitMask(k: nat, width: nat, i: nat)
    requires k < width && 1 < Pow2(width)
    ensures Bit(Shl(1, k, width), i) <==> i == k
  {
    BitShl(1, k, width, i);
    if k <= i {
      BitOne(i - k);
    }
  }

  /** The mask `~0ul << k` */
  lemma BitOnesShifted(k: nat, width: nat, i: nat)
    ensures Bit(Shl(Not(0, width), k, width), i) <==> k <= i < width
  {
    BitShl(Not(0, width), k, width, i);
    if k <= i < width {
      BitNot(0, width, i - k);
      ZeroHasNoBit(i - k);
    }
  }

  /** A word is determined by its bits. */
  lemma {:induction false} SameBits(a: nat, b: nat)
    requires forall i: nat :: Bit(a, i) <==> Bit(b, i)
    ensures a == b
  {
    assert Bit(a, 0) <==> Bit(b, 0);
    if a != 0 || b != 0 {
      forall i: nat
        ensures Bit(a / 2, i) <==> Bit(b / 2, i)
      {
        assert Bit(a, i + 1) <==> Bit(b, i + 1);
      }
      SameBits(a / 2, b / 2);
    }
  }

  /** A word without bits at or above `width` fits in `width` bits. */
  lemma {:induction false} FitsWithoutHighBits(w: nat, width: nat)
    requires forall i: nat :: width <= i ==> !Bit(w, i)
    ensures w < Pow2(width)
    decreases width
  {
    if width == 0 {
      if w != 0 {
        var i := SomeBit(w);
        assert false;
      }
    } else {
      forall i: nat | width - 1 <= i
        ensures !Bit(w / 2, i)
      {
        assert !Bit(w, i + 1);
      }
      FitsWithoutHighBits(w / 2, width - 1);
    }
  }

  lemma {:induction false} SomeBit(w: nat) returns (i: nat)
    requires w != 0
    ensures Bit(w, i)
  {
    if w % 2 == 1 {
      i := 0;
    } else {
      var j := SomeBit(w / 2);
      i := j + 1;
    }
  }

  lemma OrFits(a: nat, b: nat, width: nat)
    requires a < Pow2(width) && b < Pow2(width)
    ensures Or(a, b) < Pow2(width)
  {
    forall i: nat | width <= i
      ensures !Bit(Or(a, b), i)
    {
      BitOr(a, b, i);
      NoHighBit(a, width, i);
      NoHighBit(b, width, i);
    }
    FitsWithoutHighBits(Or(a, b), width);
  }

  lemma AndFits(a: nat, b: nat, width: nat)
    requires a < Pow2(width) || b < Pow2(width)
    ensures And(a, b) < Pow2(width)
  {
    forall i: nat | width <= i
      ensures !Bit(And(a, b), i)
    {
      BitAnd(a, b, i);
      if a < Pow2(width) {
        NoHighBit(a, width, i);
      } else {
        NoHighBit(b, width, i);
      }
    }
    FitsWithoutHighBits(And(a, b), width);
  }

  /** The positions of the bits of a word. */
  ghost function BitSet(w: nat, width: nat): (s: set<nat>) {
    set i: nat | i < width && Bit(w, i)
  }

  ghost function Shifted(s: set<nat>, d: nat): (t: set<nat>) {
    set i | i in s :: d + i
  }

  lemma InShifted(s: set<nat>, d: nat, x: nat)
    ensures x in Shifted(s, d) <==> d <= x && x - d in s
  {
    if d <= x && x - d in s {
      assert x == d + (x - d);
    }
  }

  lemma {:induction false} ShiftedSize(s: set<nat>, d: nat)
    ensures |Shifted(s, d)| == |s|
  {
    if s == {} {
      assert Shifted(s, d) == {};
    } else {
      var i :| i in s;
      ShiftedSize(s - {i}, d);
      forall x: nat
        ensures x in Shifted(s, d) <==> x in Shifted(s - {i}, d) + {d + i}
      {
        InShifted(s, d, x);
        InShifted(s - {i}, d, x);
      }
      assert Shifted(s, d) == Shifted(s - {i}, d) + {d + i};
      InShifted(s - {i}, d, d + i);
    }
  }

  /** The number of set bits, as `_starpu_count_bit_static` accumulates it. */
  function PopCount(w: nat): (c: nat) {
    if w == 0 then 0 else w % 2 + PopCount(w / 2)
  }

  /** Counting bits is counting positions. */
  lemma {:induction false} PopCountIsSize(w: nat, width: nat)
    requires w < Pow2(width)
    ensures PopCount(w) == |BitSet(w, width)|
    decreases width
  {
    if width == 0 {
      assert BitSet(w, 0) == {};
    } else {
      var rest := BitSet(w / 2, width - 1);
      PopCountIsSize(w / 2, width - 1);
      ShiftedSize(rest, 1);
      LowestBitApart(w, width);
      if w % 2 == 1 {
        InShifted(rest, 1, 0);
        assert |{0} + Shifted(rest, 1)| == 1 + |rest|;
      }
    }
  }

  lemma LowestBitApart(w: nat, width: nat)
    requires width > 0
    ensures BitSet(w, width) ==
            (if w % 2 == 1 then {0} else {}) + Shifted(BitSet(w / 2, width - 1), 1)
  {
    var low: set<nat> := if w % 2 == 1 then {0} else {};
    var high := Shifted(BitSet(w / 2, width - 1), 1);
    forall i: nat
      ensures i in BitSet(w, width) <==> i in low + high
    {
      InShifted(BitSet(w / 2, width - 1), 1, i);
    }
  }
}
