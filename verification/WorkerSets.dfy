/** Which worker set a word array denotes: the mathematical side of include/starpu_bitmap.h. */
module WorkerSets {
  import opened Arith
  import opened Words

  /** The configuration is left open: every statement holds for every word width and every worker limit. */
  type WordWidth = n: nat | 2 <= n witness 2
  const LONG_BIT: WordWidth
  const NMAXWORKERS: Positive
  const BITMAP_SIZE: Positive := CDiv(NMAXWORKERS - 1, LONG_BIT) + 1
  const CAPACITY: nat := BITMAP_SIZE * LONG_BIT

  /** The array has room for every worker, and not a whole word to spare. */
  lemma CapacityFits()
    ensures NMAXWORKERS <= CAPACITY < NMAXWORKERS + LONG_BIT
  {
    CDivMod(NMAXWORKERS - 1, LONG_BIT);
    MulStep(BITMAP_SIZE - 1, LONG_BIT);
  }

  /** `unsigned long` */
  type Word = w: nat | w < Pow2(LONG_BIT) witness 0

  /** The first worker of word q, q * LONG_BIT. */
  function WordStart(q: nat): (n: nat) {
    if q == 0 then 0 else WordStart(q - 1) + LONG_BIT
  }

  lemma {:induction false} WordStartIs(q: nat)
    ensures WordStart(q) == q * LONG_BIT
  {
    if q != 0 {
      WordStartIs(q - 1);
      MulStep(q - 1, LONG_BIT);
    }
  }

  /** The workers in the first `n` words: worker q * LONG_BIT + r is bit r of word q. */
  ghost function MembersUpTo(ws: seq<Word>, n: nat): (s: set<nat>)
    requires n <= |ws|
  {
    if n == 0 then {}
    else MembersUpTo(ws, n - 1) + Shifted(BitSet(ws[n - 1], LONG_BIT), WordStart(n - 1))
  }

  ghost function MembersOf(ws: seq<Word>): (s: set<nat>) {
    MembersUpTo(ws, |ws|)
  }

  /** The sum of the word popcounts. */
  function CountUpTo(ws: seq<Word>, n: nat): (c: nat)
    requires n <= |ws|
  {
    if n == 0 then 0 else CountUpTo(ws, n - 1) + PopCount(ws[n - 1])
  }

  lemma Position(q: nat, r: nat)
    requires r < LONG_BIT
    ensures CDiv(q * LONG_BIT + r, LONG_BIT) == q && CMod(q * LONG_BIT + r, LONG_BIT) == r
  {
    CDivUnique(q * LONG_BIT + r, q, r, LONG_BIT);
  }

  lemma WordBefore(q: nat, r: nat, n: nat)
    requires r < LONG_BIT
    ensures q < n <==> q * LONG_BIT + r < n * LONG_BIT
  {
    if q < n {
      MulAtLeast(n - q, LONG_BIT);
      assert (n - q) * LONG_BIT == n * LONG_BIT - q * LONG_BIT;
    } else {
      MulNonNegative(q - n, LONG_BIT);
      assert (q - n) * LONG_BIT == q * LONG_BIT - n * LONG_BIT;
    }
  }

  /** Membership is testing one bit of one word. */
  lemma {:induction false} InMembersUpTo(ws: seq<Word>, n: nat, q: nat, r: nat)
    requires n <= |ws| && r < LONG_BIT
    ensures q * LONG_BIT + r in MembersUpTo(ws, n) <==> q < n && Bit(ws[q], r)
    decreases n
  {
    if n != 0 {
      InMembersUpTo(ws, n - 1, q, r);
      InWord(ws[n - 1], n - 1, q, r);
    }
  }

  lemma InWord(w: Word, n: nat, q: nat, r: nat)
    requires r < LONG_BIT
    ensures q * LONG_BIT + r in Shifted(BitSet(w, LONG_BIT), WordStart(n)) <==> q == n && Bit(w, r)
  {
    WordStartIs(n);
    InShifted(BitSet(w, LONG_BIT), WordStart(n), q * LONG_BIT + r);
    if q != n {
      OtherWord(n, q, r);
    }
  }

  /** A worker of word q is before or after all those of word n. */
  lemma OtherWord(n: nat, q: nat, r: nat)
    requires r < LONG_BIT && q != n
    ensures q * LONG_BIT + r < n * LONG_BIT || n * LONG_BIT + LONG_BIT <= q * LONG_BIT + r
  {
    WordBefore(q, r, n);
    WordBefore(q, r, n + 1);
    MulStep(n, LONG_BIT);
  }

  lemma InMembers(ws: seq<Word>, e: nat)
    ensures e in MembersOf(ws) <==> CDiv(e, LONG_BIT) < |ws| && Bit(ws[CDiv(e, LONG_BIT)], CMod(e, LONG_BIT))
  {
    InMembersUpTo(ws, |ws|, CDiv(e, LONG_BIT), CMod(e, LONG_BIT));
    CDivMod(e, LONG_BIT);
  }

  lemma MembersBelow(ws: seq<Word>, e: nat)
    requires e in MembersOf(ws)
    ensures e < |ws| * LONG_BIT
  {
    InMembers(ws, e);
    WordBefore(CDiv(e, LONG_BIT), CMod(e, LONG_BIT), |ws|);
    CDivMod(e, LONG_BIT);
  }

  /** The members of a word array are those of s when each bit says so. */
  lemma SameMembers(ws: seq<Word>, s: set<nat>)
    requires forall q: nat, r: nat {:trigger Bit(ws[q], r)} :: q < |ws| && r < LONG_BIT ==>
      (Bit(ws[q], r) <==> q * LONG_BIT + r in s)
    requires forall e {:trigger e in s} :: e in s ==> e < |ws| * LONG_BIT
    ensures MembersOf(ws) == s
  {
    forall e: nat
      ensures e in MembersOf(ws) <==> e in s
    {
      InMembers(ws, e);
      var q, r := CDiv(e, LONG_BIT), CMod(e, LONG_BIT);
      CDivMod(e, LONG_BIT);
      WordBefore(q, r, |ws|);
      if q < |ws| {
        assert Bit(ws[q], r) <==> q * LONG_BIT + r in s;
      }
    }
  }

  /** The cached cardinal has two readings that always agree: the size of the set and the sum of popcounts. */
  lemma {:induction false} CountIsSize(ws: seq<Word>, n: nat)
    requires n <= |ws|
    ensures CountUpTo(ws, n) == |MembersUpTo(ws, n)|
    decreases n
  {
    if n != 0 {
      CountIsSize(ws, n - 1);
      OneMoreWord(ws, n);
    }
  }

  lemma OneMoreWord(ws: seq<Word>, n: nat)
    requires 0 < n <= |ws|
    ensures |MembersUpTo(ws, n)| == |MembersUpTo(ws, n - 1)| + PopCount(ws[n - 1])
  {
    MembersUpToBelow(ws, n - 1);
    AddWord(MembersUpTo(ws, n - 1), ws[n - 1], WordStart(n - 1));
  }

  lemma MembersUpToBelow(ws: seq<Word>, n: nat)
    requires n <= |ws|
    ensures forall e {:trigger e in MembersUpTo(ws, n)} :: e in MembersUpTo(ws, n) ==> e < WordStart(n)
  {
    WordStartIs(n);
    forall e | e in MembersUpTo(ws, n)
      ensures e < WordStart(n)
    {
      var q, r := CDiv(e, LONG_BIT), CMod(e, LONG_BIT);
      CDivMod(e, LONG_BIT);
      InMembersUpTo(ws, n, q, r);
      WordBefore(q, r, n);
    }
  }

  lemma AddWord(s: set<nat>, w: Word, d: nat)
    requires forall e {:trigger e in s} :: e in s ==> e < d
    ensures |s + Shifted(BitSet(w, LONG_BIT), d)| == |s| + PopCount(w)
  {
    var here := Shifted(BitSet(w, LONG_BIT), d);
    PopCountIsSize(w, LONG_BIT);
    ShiftedSize(BitSet(w, LONG_BIT), d);
    assert s !! here;
  }

  lemma {:induction false} CountIgnoresLater(ws: seq<Word>, ws': seq<Word>, n: nat)
    requires n <= |ws| && n <= |ws'|
    requires forall k :: 0 <= k < n ==> ws[k] == ws'[k]
    ensures CountUpTo(ws, n) == CountUpTo(ws', n)
    decreases n
  {
    if n != 0 {
      CountIgnoresLater(ws, ws', n - 1);
    }
  }

  /** `r` is the set member right after `e`, or -1 when there is none. */
  ghost predicate IsNext(s: set<nat>, e: int, r: int) {
    if r == -1 then forall m {:trigger m in s} :: m in s ==> m <= e
    else r in s && e < r && forall m {:trigger m in s} :: m in s && e < m ==> r <= m
  }

  lemma NextUnique(s: set<nat>, e: int, r: int, r': int)
    requires -1 <= r && -1 <= r' && IsNext(s, e, r) && IsNext(s, e, r')
    ensures r == r'
  {
  }

  ghost function Below(s: set<nat>, e: int): (t: set<nat>) {
    set m | m in s && m < e
  }

  /** Moving to the next member raises the rank by one; falling off the end has counted every member. */
  lemma NextRank(s: set<nat>, e: int, r: int)
    requires e in s && IsNext(s, e, r)
    ensures if r == -1 then |s| == |Below(s, e)| + 1 else |Below(s, r)| == |Below(s, e)| + 1
  {
    if r == -1 {
      assert s == Below(s, e) + {e as nat};
    } else {
      assert Below(s, r) == Below(s, e) + {e as nat};
    }
  }

  // ---------------------------------------------------------------- what word operations do to the set

  lemma NoMembers(ws: seq<Word>)
    requires forall k :: 0 <= k < |ws| ==> ws[k] == 0
    ensures MembersOf(ws) == {}
  {
    forall q: nat, r: nat | q < |ws| && r < LONG_BIT
      ensures !Bit(ws[q], r)
    {
      ZeroHasNoBit(r);
    }
    SameMembers(ws, {});
  }

  lemma InCapacity(e: nat)
    requires e < CAPACITY
    ensures CDiv(e, LONG_BIT) < BITMAP_SIZE
  {
    CDivMod(e, LONG_BIT);
    WordBefore(CDiv(e, LONG_BIT), CMod(e, LONG_BIT), BITMAP_SIZE);
  }

  /** Replacing word q by one that differs from it in bit r only, where it is set or cleared. */
  lemma OneBitChanged(ws: seq<Word>, e: nat, w: Word, on: bool)
    requires CDiv(e, LONG_BIT) < |ws|
    requires forall i: nat {:trigger Bit(w, i)} :: i < LONG_BIT ==>
      (Bit(w, i) <==> if i == CMod(e, LONG_BIT) then on else Bit(ws[CDiv(e, LONG_BIT)], i))
    ensures MembersOf(ws[CDiv(e, LONG_BIT) := w]) == if on then MembersOf(ws) + {e} else MembersOf(ws) - {e}
  {
    var q, r := CDiv(e, LONG_BIT), CMod(e, LONG_BIT);
    var ws' := ws[q := w];
    CDivMod(e, LONG_BIT);
    forall x: nat
      ensures x in MembersOf(ws') <==> if x == e then on else x in MembersOf(ws)
    {
      InMembers(ws, x);
      InMembers(ws', x);
      CDivMod(x, LONG_BIT);
      assert CDiv(x, LONG_BIT) == q ==> (Bit(w, CMod(x, LONG_BIT)) <==> if CMod(x, LONG_BIT) == r then on else Bit(ws[q], CMod(x, LONG_BIT)));
    }
    assert MembersOf(ws') == if on then MembersOf(ws) + {e} else MembersOf(ws) - {e};
  }

  /** Setting one bit: `w |= 1ul << r` */
  lemma SetBit(w: Word, r: nat)
    requires r < LONG_BIT
    ensures Or(w, Shl(1, r, LONG_BIT)) < Pow2(LONG_BIT)
    ensures forall i: nat {:trigger Bit(Or(w, Shl(1, r, LONG_BIT)), i)} ::
      Bit(Or(w, Shl(1, r, LONG_BIT)), i) <==> if i == r then true else Bit(w, i)
  {
    OrFits(w, Shl(1, r, LONG_BIT), LONG_BIT);
    forall i: nat
      ensures Bit(Or(w, Shl(1, r, LONG_BIT)), i) <==> i == r || Bit(w, i)
    {
      BitOr(w, Shl(1, r, LONG_BIT), i);
      BitMask(r, LONG_BIT, i);
    }
  }

  /** Clearing one bit: `w &= ~(1ul << r)` */
  lemma ClearBit(w: Word, r: nat)
    requires r < LONG_BIT
    ensures var w' := And(w, Not(Shl(1, r, LONG_BIT), LONG_BIT));
      && w' < Pow2(LONG_BIT)
      && forall i: nat {:trigger Bit(w', i)} :: i < LONG_BIT ==> (Bit(w', i) <==> if i == r then false else Bit(w, i))
  {
    var mask := Shl(1, r, LONG_BIT);
    AndFits(w, Not(mask, LONG_BIT), LONG_BIT);
    forall i: nat | i < LONG_BIT
      ensures Bit(And(w, Not(mask, LONG_BIT)), i) <==> i != r && Bit(w, i)
    {
      BitAnd(w, Not(mask, LONG_BIT), i);
      BitNot(mask, LONG_BIT, i);
      BitMask(r, LONG_BIT, i);
    }
  }

  lemma UnionMembers(a: seq<Word>, b: seq<Word>, c: seq<Word>)
    requires |a| == |b| == |c|
    requires forall k :: 0 <= k < |c| ==> c[k] == Or(a[k], b[k])
    ensures MembersOf(c) == MembersOf(a) + MembersOf(b)
  {
    forall e: nat
      ensures e in MembersOf(c) <==> e in MembersOf(a) || e in MembersOf(b)
    {
      InMembers(a, e);
      InMembers(b, e);
      InMembers(c, e);
      if CDiv(e, LONG_BIT) < |c| {
        BitOr(a[CDiv(e, LONG_BIT)], b[CDiv(e, LONG_BIT)], CMod(e, LONG_BIT));
      }
    }
  }

  lemma IntersectionMembers(a: seq<Word>, b: seq<Word>, c: seq<Word>)
    requires |a| == |b| == |c|
    requires forall k :: 0 <= k < |c| ==> c[k] == And(a[k], b[k])
    ensures MembersOf(c) == MembersOf(a) * MembersOf(b)
  {
    forall e: nat
      ensures e in MembersOf(c) <==> e in MembersOf(a) && e in MembersOf(b)
    {
      InMembers(a, e);
      InMembers(b, e);
      InMembers(c, e);
      if CDiv(e, LONG_BIT) < |c| {
        BitAnd(a[CDiv(e, LONG_BIT)], b[CDiv(e, LONG_BIT)], CMod(e, LONG_BIT));
      }
    }
  }

  // ---------------------------------------------------------------- scanning

  /** C division at -1 gives word 0 and bit -1, so that the scan starts at bit 0 of word 0. */
  lemma TruncatedPosition(e: int)
    requires -1 <= e < CAPACITY
    ensures 0 <= CDiv(e, LONG_BIT) < BITMAP_SIZE && -1 <= CMod(e, LONG_BIT) < LONG_BIT
    ensures e == CDiv(e, LONG_BIT) * LONG_BIT + CMod(e, LONG_BIT)
  {
    if e == -1 {
    } else {
      InCapacity(e);
    }
  }

  /** The part of a word at and above bit k: `(~0ul << k) & w` */
  lemma RestBits(w: Word, k: nat)
    ensures var rest := And(Shl(Not(0, LONG_BIT), k, LONG_BIT), w);
      && rest < Pow2(LONG_BIT)
      && (forall i: nat {:trigger Bit(rest, i)} :: i < LONG_BIT ==> (Bit(rest, i) <==> k <= i && Bit(w, i)))
      && (rest == 0 <==> forall i: nat {:trigger Bit(w, i)} :: k <= i < LONG_BIT ==> !Bit(w, i))
  {
    var ones := Shl(Not(0, LONG_BIT), k, LONG_BIT);
    var rest := And(ones, w);
    AndFits(ones, w, LONG_BIT);
    forall i: nat
      ensures Bit(rest, i) <==> k <= i < LONG_BIT && Bit(w, i)
    {
      BitAnd(ones, w, i);
      BitOnesShifted(k, LONG_BIT, i);
    }
    if rest == 0 {
      forall i: nat | k <= i < LONG_BIT
        ensures !Bit(w, i)
      {
        ZeroHasNoBit(i);
        assert !Bit(rest, i);
      }
    } else {
      var i := SomeBit(rest);
      BitAnd(ones, w, i);
      BitOnesShifted(k, LONG_BIT, i);
    }
  }

  /** Worker e lies at or after bit k of word q. */
  lemma AtOrAfter(e: nat, q: nat, k: nat)
    requires k <= LONG_BIT
    ensures q * LONG_BIT + k <= e <==> q < CDiv(e, LONG_BIT) || (q == CDiv(e, LONG_BIT) && k <= CMod(e, LONG_BIT))
  {
    var q', r' := CDiv(e, LONG_BIT), CMod(e, LONG_BIT);
    CDivMod(e, LONG_BIT);
    WordBefore(q', r', q);
    WordBefore(q', r', q + 1);
    assert (q + 1) * LONG_BIT == q * LONG_BIT + LONG_BIT;
    if q < q' {
      MulAtLeast(q' - q, LONG_BIT);
      assert (q' - q) * LONG_BIT == q' * LONG_BIT - q * LONG_BIT;
    }
  }

  /** No bit is set from bit k of word q0 up to, not including, bit r of word q. */
  ghost predicate ClearBetween(ws: seq<Word>, q0: nat, k: nat, q: nat, r: nat) {
    forall p: nat, i: nat {:trigger Bit(ws[p], i)} ::
      p < |ws| && i < LONG_BIT && (q0 < p || (q0 == p && k <= i)) && (p < q || (p == q && i < r)) ==> !Bit(ws[p], i)
  }

  /** A set bit with nothing set between it and the start of the scan is the next member. */
  lemma FirstAfter(ws: seq<Word>, q0: nat, k: nat, q: nat, r: nat)
    requires k <= LONG_BIT && q < |ws| && r < LONG_BIT
    requires q0 < q || (q0 == q && k <= r)
    requires Bit(ws[q], r) && ClearBetween(ws, q0, k, q, r)
    ensures IsNext(MembersOf(ws), q0 * LONG_BIT + k - 1, q * LONG_BIT + r)
  {
    var e := q * LONG_BIT + r;
    Position(q, r);
    InMembers(ws, e);
    AtOrAfter(e, q0, k);
    forall m | m in MembersOf(ws) && q0 * LONG_BIT + k - 1 < m
      ensures e <= m
    {
      InMembers(ws, m);
      AtOrAfter(m, q0, k);
      AtOrAfter(m, q, r);
      assert Bit(ws[CDiv(m, LONG_BIT)], CMod(m, LONG_BIT));
    }
  }

  lemma NoneAfter(ws: seq<Word>, q0: nat, k: nat)
    requires k <= LONG_BIT && ClearBetween(ws, q0, k, |ws|, 0)
    ensures IsNext(MembersOf(ws), q0 * LONG_BIT + k - 1, -1)
  {
    forall m | m in MembersOf(ws)
      ensures m <= q0 * LONG_BIT + k - 1
    {
      InMembers(ws, m);
      AtOrAfter(m, q0, k);
      assert Bit(ws[CDiv(m, LONG_BIT)], CMod(m, LONG_BIT));
    }
  }

  /** Scanning past a zero word. */
  lemma ZeroWordClear(ws: seq<Word>, q0: nat, k: nat, q: nat)
    requires q < |ws| && ws[q] == 0 && ClearBetween(ws, q0, k, q, 0)
    ensures ClearBetween(ws, q0, k, q + 1, 0)
  {
    forall p: nat, i: nat | p < |ws| && i < LONG_BIT && (q0 < p || (q0 == p && k <= i)) && p < q + 1
      ensures !Bit(ws[p], i)
    {
      if p == q {
        ZeroHasNoBit(i);
      }
    }
  }

  lemma AndCommutes(a: nat, b: nat)
    ensures And(a, b) == And(b, a)
  {
    forall i: nat
      ensures Bit(And(a, b), i) <==> Bit(And(b, a), i)
    {
      BitAnd(a, b, i);
      BitAnd(b, a, i);
    }
    SameBits(And(a, b), And(b, a));
  }

  lemma MemberAfter(ws: seq<Word>, q0: nat, k: nat, q: nat, r: nat)
    requires k <= LONG_BIT && q < |ws| && r < LONG_BIT && Bit(ws[q], r)
    requires q0 < q || (q0 == q && k <= r)
    ensures !IsNext(MembersOf(ws), q0 * LONG_BIT + k - 1, -1)
  {
    var e := q * LONG_BIT + r;
    Position(q, r);
    InMembers(ws, e);
    AtOrAfter(e, q0, k);
  }

  /** The highest bit of the highest non-zero word is the largest member. */
  lemma LastMember(ws: seq<Word>, q: nat, r: nat)
    requires q < |ws| && 0 < r <= LONG_BIT && Bit(ws[q], r - 1)
    requires forall k :: q < k < |ws| ==> ws[k] == 0
    requires forall j: nat :: r <= j ==> !Bit(ws[q], j)
    ensures q * LONG_BIT + r - 1 in MembersOf(ws)
    ensures forall m :: m in MembersOf(ws) ==> m < q * LONG_BIT + r
  {
    Position(q, r - 1);
    InMembers(ws, q * LONG_BIT + r - 1);
    forall m | m in MembersOf(ws)
      ensures m < q * LONG_BIT + r
    {
      NoneBeyond(ws, q, r, m);
    }
  }

  lemma NoneBeyond(ws: seq<Word>, q: nat, r: nat, m: nat)
    requires q < |ws| && r <= LONG_BIT && m in MembersOf(ws)
    requires forall k {:trigger ws[k]} :: q < k < |ws| ==> ws[k] == 0
    requires forall j: nat {:trigger Bit(ws[q], j)} :: r <= j ==> !Bit(ws[q], j)
    ensures m < q * LONG_BIT + r
  {
    InMembers(ws, m);
    AtOrAfter(m, q, r);
    ZeroHasNoBit(CMod(m, LONG_BIT));
  }

  // ---------------------------------------------------------------- clearing by bytes

  lemma {:induction false} Pow2Monotone(i: nat, n: nat)
    requires i <= n
    ensures Pow2(i) <= Pow2(n)
    decreases n
  {
    if i < n {
      Pow2Monotone(i, n - 1);
    }
  }

  /** Clearing byte j of a word: `w & ~(0xff << 8 * j)` */
  function WithoutByte(w: Word, j: nat): (r: Word)
    requires 8 <= LONG_BIT
    ensures forall i: nat {:trigger Bit(r, i)} :: i < LONG_BIT ==> (Bit(r, i) <==> !(8 * j <= i < 8 * j + 8) && Bit(w, i))
  {
    Pow2Monotone(8, LONG_BIT);
    ByteCleared(w, j);
    And(w, Not(Shl(Not(0, 8), 8 * j, LONG_BIT), LONG_BIT))
  }

  lemma ByteCleared(w: Word, j: nat)
    requires 8 <= LONG_BIT && Pow2(8) <= Pow2(LONG_BIT)
    ensures var r := And(w, Not(Shl(Not(0, 8), 8 * j, LONG_BIT), LONG_BIT));
      && r < Pow2(LONG_BIT)
      && forall i: nat {:trigger Bit(r, i)} :: i < LONG_BIT ==> (Bit(r, i) <==> !(8 * j <= i < 8 * j + 8) && Bit(w, i))
  {
    var byte := Shl(Not(0, 8), 8 * j, LONG_BIT);
    AndFits(w, Not(byte, LONG_BIT), LONG_BIT);
    forall i: nat | i < LONG_BIT
      ensures Bit(And(w, Not(byte, LONG_BIT)), i) <==> !(8 * j <= i < 8 * j + 8) && Bit(w, i)
    {
      BitAnd(w, Not(byte, LONG_BIT), i);
      BitNot(byte, LONG_BIT, i);
      BitShl(Not(0, 8), 8 * j, LONG_BIT, i);
      if 8 * j <= i {
        BitNot(0, 8, i - 8 * j);
        ZeroHasNoBit(i - 8 * j);
      }
    }
  }

  /** Which byte of a word is at position j in memory. */
  function Lane(sizeofLong: Positive, bigEndian: bool, j: nat): (lane: nat)
    requires j < sizeofLong
    ensures lane < sizeofLong
  {
    if bigEndian then sizeofLong - 1 - j else j
  }

  /** The byte of the array, by its position in memory, that holds worker m. */
  function MemoryByte(sizeofLong: Positive, bigEndian: bool, m: nat): (k: nat)
    requires LONG_BIT == 8 * sizeofLong
  {
    var lane := CDiv(CMod(m, LONG_BIT), 8);
    CDivMod(CMod(m, LONG_BIT), 8);
    MulNonNegative(CDiv(m, LONG_BIT), sizeofLong);
    CDiv(m, LONG_BIT) * sizeofLong + Lane(sizeofLong, bigEndian, lane)
  }

  lemma SameByte(sizeofLong: Positive, bigEndian: bool, m: nat, q: nat, j: nat)
    requires LONG_BIT == 8 * sizeofLong && j < sizeofLong
    ensures var lane := Lane(sizeofLong, bigEndian, j);
      MemoryByte(sizeofLong, bigEndian, m) == q * sizeofLong + j <==>
      CDiv(m, LONG_BIT) == q && 8 * lane <= CMod(m, LONG_BIT) < 8 * lane + 8
  {
    var q', r := CDiv(m, LONG_BIT), CMod(m, LONG_BIT);
    CDivMod(r, 8);
    var j' := Lane(sizeofLong, bigEndian, CDiv(r, 8));
    if q' * sizeofLong + j' == q * sizeofLong + j {
      MulNonNegative(q, sizeofLong);
      CDivUnique(q * sizeofLong + j, q, j, sizeofLong);
      CDivUnique(q * sizeofLong + j, q', j', sizeofLong);
    }
  }

  /** Clearing the byte at position j of word q drops the workers of that byte. */
  lemma ByteOfWorkers(ws: seq<Word>, sizeofLong: Positive, bigEndian: bool, q: nat, j: nat, w: Word)
    requires LONG_BIT == 8 * sizeofLong && q < |ws| && j < sizeofLong
    requires w == WithoutByte(ws[q], Lane(sizeofLong, bigEndian, j))
    ensures MembersOf(ws[q := w])
         == set m | m in MembersOf(ws) && MemoryByte(sizeofLong, bigEndian, m) != q * sizeofLong + j
  {
    var ws' := ws[q := w];
    forall m: nat
      ensures m in MembersOf(ws') <==> m in MembersOf(ws) && MemoryByte(sizeofLong, bigEndian, m) != q * sizeofLong + j
    {
      InMembers(ws, m);
      InMembers(ws', m);
      SameByte(sizeofLong, bigEndian, m, q, j);
    }
  }

  /** The bytes that are cleared lie inside the array. */
  lemma ByteInArray(k: nat, sizeofLong: Positive)
    requires k < BITMAP_SIZE - 1 + sizeofLong
    ensures CDiv(k, sizeofLong) < BITMAP_SIZE
    ensures k == CDiv(k, sizeofLong) * sizeofLong + CMod(k, sizeofLong)
  {
    CDivMod(k, sizeofLong);
    var q := CDiv(k, sizeofLong);
    assert q * sizeofLong == (q - 1) * (sizeofLong - 1) + (q - 1) + sizeofLong;
    if BITMAP_SIZE <= q {
      MulNonNegative(q - 1, sizeofLong - 1);
      assert false;
    }
  }

  /** The workers that `starpu_bitmap_unset_all` leaves in a bitmap: it clears BITMAP_SIZE - 1 + sizeof(long) bytes,
      since the macro for the array length has no outer parentheses. */
  ghost function LeftByUnsetAll(s: set<nat>, sizeofLong: Positive, bigEndian: bool): (t: set<nat>)
    requires LONG_BIT == 8 * sizeofLong
  {
    FromByte(s, sizeofLong, bigEndian, BITMAP_SIZE - 1 + sizeofLong)
  }

  /** The workers of s that are in byte k of the array or after it. */
  ghost function FromByte(s: set<nat>, sizeofLong: Positive, bigEndian: bool, k: nat): (t: set<nat>)
    requires LONG_BIT == 8 * sizeofLong
  {
    set m | m in s && k <= MemoryByte(sizeofLong, bigEndian, m)
  }

  /** Clearing byte k, after the bytes before it. */
  lemma ClearByte(s: set<nat>, ws: seq<Word>, sizeofLong: Positive, bigEndian: bool, k: nat)
    requires LONG_BIT == 8 * sizeofLong && |ws| == BITMAP_SIZE && k < BITMAP_SIZE - 1 + sizeofLong
    requires MembersOf(ws) == FromByte(s, sizeofLong, bigEndian, k)
    ensures var q, j := CDiv(k, sizeofLong), CMod(k, sizeofLong);
      && q < BITMAP_SIZE
      && MembersOf(ws[q := WithoutByte(ws[q], Lane(sizeofLong, bigEndian, j))])
         == FromByte(s, sizeofLong, bigEndian, k + 1)
  {
    ByteInArray(k, sizeofLong);
    var q, j := CDiv(k, sizeofLong), CMod(k, sizeofLong);
    ByteOfWorkers(ws, sizeofLong, bigEndian, q, j, WithoutByte(ws[q], Lane(sizeofLong, bigEndian, j)));
  }

  ghost predicate EmptiesAll(sizeofLong: Positive, bigEndian: bool)
    requires LONG_BIT == 8 * sizeofLong
  {
    forall s: set<nat> {:trigger LeftByUnsetAll(s, sizeofLong, bigEndian)} ::
      (forall m {:trigger m in s} :: m in s ==> m < CAPACITY) ==> LeftByUnsetAll(s, sizeofLong, bigEndian) == {}
  }

  lemma BytesOfCapacity(sizeofLong: Positive, bigEndian: bool, m: nat)
    requires LONG_BIT == 8 * sizeofLong && m < CAPACITY
    ensures MemoryByte(sizeofLong, bigEndian, m) < BITMAP_SIZE * sizeofLong
  {
    InCapacity(m);
    CDivMod(CMod(m, LONG_BIT), 8);
    var q := CDiv(m, LONG_BIT);
    MulStep(q, sizeofLong);
    MulNonNegative(BITMAP_SIZE - 1 - q, sizeofLong);
    assert BITMAP_SIZE * sizeofLong == (BITMAP_SIZE - 1 - q) * sizeofLong + (q + 1) * sizeofLong;
  }

  /** A worker in the last byte of the array. */
  lemma LastByte(sizeofLong: Positive, bigEndian: bool) returns (m: nat)
    requires LONG_BIT == 8 * sizeofLong
    ensures m < CAPACITY && MemoryByte(sizeofLong, bigEndian, m) == BITMAP_SIZE * sizeofLong - 1
  {
    var q := BITMAP_SIZE - 1;
    var lane := Lane(sizeofLong, bigEndian, sizeofLong - 1);
    Position(q, 8 * lane);
    m := q * LONG_BIT + 8 * lane;
    WordBefore(q, 8 * lane, BITMAP_SIZE);
    SameByte(sizeofLong, bigEndian, m, q, sizeofLong - 1);
    MulStep(q, sizeofLong);
  }

  /** It empties every bitmap exactly when the array is one word long (or words are single bytes). */
  lemma UnsetAllEmptiesOneWord(sizeofLong: Positive, bigEndian: bool)
    requires LONG_BIT == 8 * sizeofLong
    ensures EmptiesAll(sizeofLong, bigEndian) <==> BITMAP_SIZE == 1 || sizeofLong == 1
  {
    var a, b := BITMAP_SIZE - 1, sizeofLong - 1;
    assert BITMAP_SIZE * sizeofLong == a * b + a + b + 1;
    if 0 < a && 0 < b {
      MulAtLeast(a, b);
      var m := LastByte(sizeofLong, bigEndian);
      assert m in LeftByUnsetAll({m}, sizeofLong, bigEndian);
      assert !EmptiesAll(sizeofLong, bigEndian);
    } else {
      assert a * b == 0;
      forall s: set<nat>, m | m in s && m < CAPACITY
        ensures m !in LeftByUnsetAll(s, sizeofLong, bigEndian)
      {
        BytesOfCapacity(sizeofLong, bigEndian, m);
      }
    }
  }

  /** Where a worker is within its byte, for either byte order. */
  lemma WithinByte(sizeofLong: Positive, m: nat)
    requires LONG_BIT == 8 * sizeofLong
    ensures 8 * MemoryByte(sizeofLong, false, m) <= m < 8 * MemoryByte(sizeofLong, false, m) + 8
    ensures var mirrored := CDiv(m, LONG_BIT) * LONG_BIT + (LONG_BIT - 1 - CMod(m, LONG_BIT));
      8 * MemoryByte(sizeofLong, true, m) <= mirrored < 8 * MemoryByte(sizeofLong, true, m) + 8
  {
    var q, r := CDiv(m, LONG_BIT), CMod(m, LONG_BIT);
    CDivMod(m, LONG_BIT);
    CDivMod(r, 8);
    EightTimes(q, sizeofLong, LONG_BIT);
    ByteSpan(q * sizeofLong, sizeofLong, CDiv(r, 8), CMod(r, 8));
  }

  lemma EightTimes(q: int, z: int, n: int)
    requires n == 8 * z
    ensures q * n == 8 * (q * z)
  {
  }

  /** Bit b of byte `lane`, in a word of z bytes that starts at byte p, counted from below and from above. */
  lemma ByteSpan(p: int, z: int, lane: int, b: int)
    requires 0 <= b < 8
    ensures 8 * (p + lane) <= 8 * p + (8 * lane + b) < 8 * (p + lane) + 8
    ensures var mirrored := 8 * p + (8 * z - 1 - (8 * lane + b));
      8 * (p + (z - 1 - lane)) <= mirrored < 8 * (p + (z - 1 - lane)) + 8
  {
  }

  /** Which workers stay, by their numbers. When the lowest byte of a word comes first in memory, those from a certain
      number on; otherwise the same holds of the numbers mirrored within each word. */
  lemma LeftByNumber(s: set<nat>, sizeofLong: Positive, m: nat)
    requires LONG_BIT == 8 * sizeofLong
    ensures m in LeftByUnsetAll(s, sizeofLong, false) <==> m in s && 8 * (BITMAP_SIZE - 1 + sizeofLong) <= m
    ensures m in LeftByUnsetAll(s, sizeofLong, true) <==>
      && m in s
      && 8 * (BITMAP_SIZE - 1 + sizeofLong) <= CDiv(m, LONG_BIT) * LONG_BIT + (LONG_BIT - 1 - CMod(m, LONG_BIT))
  {
    WithinByte(sizeofLong, m);
  }

  /** Two words of eight bytes, as for 65 to 128 workers: 56 of the 128 workers stay. */
  lemma LeftOfTwoWords(s: set<nat>)
    requires LONG_BIT == 64 && BITMAP_SIZE == 2 && forall m {:trigger m in s} :: m in s ==> m < CAPACITY
    ensures LeftByUnsetAll(s, 8, false) == set m | m in s && 72 <= m
    ensures LeftByUnsetAll(s, 8, true) == set m | m in s && 64 <= m < 120
  {
    forall m | m in s
      ensures m in LeftByUnsetAll(s, 8, false) <==> 72 <= m
      ensures m in LeftByUnsetAll(s, 8, true) <==> 64 <= m < 120
    {
      LeftByNumber(s, 8, m);
      CDivMod(m, LONG_BIT);
      if m < 64 {
        CDivUnique(m, 0, m, LONG_BIT);
      } else {
        CDivUnique(m, 1, m - 64, LONG_BIT);
      }
    }
  }
}
