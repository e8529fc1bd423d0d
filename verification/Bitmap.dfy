/** `struct starpu_bitmap` of include/starpu_bitmap.h: a word array and a cached cardinal, changed in place. */
module Bitmap {
  import opened Arith
  import opened Words
  import opened WorkerSets

  // ---------------------------------------------------------------- words

  /** `_starpu_count_bit_static`, the portable loop. */
  method CountBits(w: Word) returns (c: nat)
    ensures c == |BitSet(w, LONG_BIT)|
  {
    c := 0;
    var e: nat := w;
    while e != 0
      invariant c + PopCount(e) == PopCount(w)
      decreases e
    {
      c := c + e % 2;
      e := e / 2;
    }
    PopCountIsSize(w, LONG_BIT);
  }

  /** `_starpu_get_first_bit_rank`, the portable loop: the position of the lowest set bit. */
  method FirstBitRank(ms: Word) returns (i: nat)
    requires ms != 0
    ensures i < LONG_BIT && Bit(ms, i) && forall j: nat :: j < i ==> !Bit(ms, j)
  {
    ghost var some := SomeBit(ms);
    if LONG_BIT <= some {
      NoHighBit(ms, LONG_BIT, some);
    }
    var m: nat := 1;
    i := 0;
    MaskAt(0);
    MaskTests(ms, 0);
    while And(m, ms) == 0
      invariant i <= some < LONG_BIT && m == Shl(1, i, LONG_BIT)
      invariant And(m, ms) != 0 <==> Bit(ms, i)
      invariant forall j: nat :: j < i ==> !Bit(ms, j)
      decreases some - i
    {
      i, m := i + 1, Shl(m, 1, LONG_BIT);
      MaskAt(i);
      MaskTests(ms, i);
    }
  }

  /** Shifting the mask left by one moves it to the next position. */
  lemma MaskAt(i: nat)
    requires i < LONG_BIT
    ensures i == 0 ==> Shl(1, 0, LONG_BIT) == 1
    ensures i != 0 ==> Shl(Shl(1, i - 1, LONG_BIT), 1, LONG_BIT) == Shl(1, i, LONG_BIT)
  {
    Pow2Grows(i, LONG_BIT);
    if i != 0 {
      Pow2Grows(i - 1, LONG_BIT);
      assert Pow2(i - 1) * Pow2(1) == Pow2(i);
    }
  }

  lemma {:induction false} Pow2Grows(i: nat, n: nat)
    requires i < n
    ensures Pow2(i) < Pow2(n)
    decreases n
  {
    if i < n - 1 {
      Pow2Grows(i, n - 1);
    }
  }

  /** Testing a word against the mask `1ul << i` tests bit i. */
  lemma MaskTests(w: nat, i: nat)
    requires i < LONG_BIT
    ensures And(Shl(1, i, LONG_BIT), w) != 0 <==> Bit(w, i)
    ensures And(w, Shl(1, i, LONG_BIT)) != 0 <==> Bit(w, i)
  {
    OneBitAnd(Shl(1, i, LONG_BIT), w, i);
    OneBitAnd(w, Shl(1, i, LONG_BIT), i);
    BitMask(i, LONG_BIT, i);
  }

  /** The conjunction is non-zero exactly when some bit is set in both; here one side has a single bit. */
  lemma OneBitAnd(a: nat, b: nat, i: nat)
    requires i < LONG_BIT
    requires a == Shl(1, i, LONG_BIT) || b == Shl(1, i, LONG_BIT)
    ensures And(a, b) != 0 <==> Bit(a, i) && Bit(b, i)
  {
    BitAnd(a, b, i);
    ZeroHasNoBit(i);
    if And(a, b) != 0 {
      var j := SomeBit(And(a, b));
      BitAnd(a, b, j);
      BitMask(i, LONG_BIT, j);
    }
  }

  /** `__builtin_clzl`: the number of zeros above the highest set bit of a `width`-bit word. */
  function Clz(w: nat, width: nat): (n: nat)
    ensures n <= width
    ensures forall j: nat :: width - n <= j < width ==> !Bit(w, j)
    ensures n < width ==> Bit(w, width - n - 1)
  {
    if width == 0 || Bit(w, width - 1) then 0 else 1 + Clz(w, width - 1)
  }

  /** `_starpu_get_last_bit_rank` as compiled by GCC: one more than the position of the highest set bit. */
  function LastBitRank(w: Word): (r: nat)
    requires w != 0
    ensures 0 < r <= LONG_BIT && Bit(w, r - 1) && forall j: nat :: r <= j ==> !Bit(w, j)
  {
    HighestBit(w);
    LONG_BIT - Clz(w, LONG_BIT)
  }

  lemma HighestBit(w: Word)
    requires w != 0
    ensures Clz(w, LONG_BIT) < LONG_BIT
    ensures forall j: nat :: LONG_BIT - Clz(w, LONG_BIT) <= j ==> !Bit(w, j)
  {
    var some := SomeBit(w);
    forall j: nat | LONG_BIT <= j
      ensures !Bit(w, j)
    {
      NoHighBit(w, LONG_BIT, j);
    }
  }

  // ---------------------------------------------------------------- the structure

  class WorkerBitmap {
    const bits: array<Word>
    var cardinal: int

    ghost predicate Shape() {
      bits.Length == BITMAP_SIZE
    }

    /** The worker set that the words denote, whatever the cached cardinal says. */
    ghost function Members(): (s: set<nat>)
      reads bits
    {
      MembersOf(bits[..])
    }

    /** Well-formed: the cached cardinal is the number of set bits. */
    ghost predicate Valid()
      reads this, bits
    {
      Shape() && cardinal == |Members()|
    }

    /** `starpu_bitmap_create` */
    constructor Create()
      ensures Valid() && fresh(bits)
      ensures Members() == {}
    {
      bits := new Word[BITMAP_SIZE](i => 0);
      cardinal := 0;
      new;
      NoMembers(bits[..]);
    }

    /** `starpu_bitmap_init`: zero the whole structure. */
    method Init()
      requires Shape()
      modifies this, bits
      ensures Valid() && Members() == {}
    {
      for i := 0 to bits.Length
        invariant forall k :: 0 <= k < i ==> bits[k] == 0
      {
        bits[i] := 0;
      }
      cardinal := 0;
      NoMembers(bits[..]);
    }

    /** `starpu_bitmap_get` is membership; beyond the capacity the answer is 0. */
    method Get(e: int) returns (r: bool)
      requires Shape() && 0 <= e
      ensures r <==> e in Members()
    {
      InMembers(bits[..], e);
      if CDiv(e, LONG_BIT) >= BITMAP_SIZE {
        return false;
      }
      MaskTests(bits[CDiv(e, LONG_BIT)], CMod(e, LONG_BIT));
      r := And(bits[CDiv(e, LONG_BIT)], Shl(1, CMod(e, LONG_BIT), LONG_BIT)) != 0;
    }

    /** `starpu_bitmap_set` */
    method Set(e: int)
      requires Shape() && 0 <= e < CAPACITY
      modifies this`cardinal, bits
      ensures Members() == old(Members()) + {e as nat}
      ensures cardinal == old(cardinal) + (if e in old(Members()) then 0 else 1)
      ensures old(Valid()) ==> Valid()
    {
      var present := Get(e);
      if present {
        assert old(Members()) == old(Members()) + {e as nat};
        return;
      }
      cardinal := cardinal + 1;
      InCapacity(e);
      ghost var before := bits[..];
      var q := CDiv(e, LONG_BIT);
      SetBit(bits[q], CMod(e, LONG_BIT));
      bits[q] := Or(bits[q], Shl(1, CMod(e, LONG_BIT), LONG_BIT));
      assert bits[..] == before[q := bits[q]];
      OneBitChanged(before, e, bits[q], true);
    }

    /** `starpu_bitmap_unset` */
    method Unset(e: int)
      requires Shape() && 0 <= e
      modifies this`cardinal, bits
      ensures Members() == old(Members()) - {e as nat}
      ensures cardinal == old(cardinal) - (if e in old(Members()) then 1 else 0)
      ensures old(Valid()) ==> Valid()
    {
      var present := Get(e);
      if !present {
        assert old(Members()) == old(Members()) - {e as nat};
        return;
      }
      cardinal := cardinal - 1;
      InMembers(bits[..], e);
      ghost var before := bits[..];
      var q := CDiv(e, LONG_BIT);
      ClearBit(bits[q], CMod(e, LONG_BIT));
      bits[q] := And(bits[q], Not(Shl(1, CMod(e, LONG_BIT), LONG_BIT), LONG_BIT));
      assert bits[..] == before[q := bits[q]];
      OneBitChanged(before, e, bits[q], false);
    }

    /** `starpu_bitmap_or`: the union, from any previous cardinal, also when `b` is this very bitmap. */
    method Union(b: WorkerBitmap)
      requires Shape() && b.Shape()
      requires b == this || b.bits != bits
      modifies this`cardinal, bits
      ensures Members() == old(Members()) + old(b.Members())
      ensures Valid()
    {
      ghost var mine, theirs := bits[..], b.bits[..];
      cardinal := 0;
      for i := 0 to BITMAP_SIZE
        invariant forall k :: 0 <= k < i ==> bits[k] == Or(mine[k], theirs[k])
        invariant forall k :: i <= k < BITMAP_SIZE ==> bits[k] == mine[k] && b.bits[k] == theirs[k]
        invariant cardinal == CountUpTo(bits[..], i)
      {
        OrFits(bits[i], b.bits[i], LONG_BIT);
        ghost var before := bits[..];
        bits[i] := Or(bits[i], b.bits[i]);
        var c := CountBits(bits[i]);
        PopCountIsSize(bits[i], LONG_BIT);
        CountIgnoresLater(before, bits[..], i);
        cardinal := cardinal + c;
      }
      CountIsSize(bits[..], BITMAP_SIZE);
      UnionMembers(mine, theirs, bits[..]);
    }

    /** `starpu_bitmap_unset_and`: the intersection of `b` and `c`, from any previous content and cardinal, also
        when this bitmap is one or both of them. */
    method Intersect(b: WorkerBitmap, c: WorkerBitmap)
      requires Shape() && b.Shape() && c.Shape()
      requires b == this || b.bits != bits
      requires c == this || c.bits != bits
      modifies this`cardinal, bits
      ensures Members() == old(b.Members()) * old(c.Members())
      ensures Valid()
    {
      ghost var bs, cs := b.bits[..], c.bits[..];
      cardinal := 0;
      for i := 0 to BITMAP_SIZE
        invariant forall k :: 0 <= k < i ==> bits[k] == And(bs[k], cs[k])
        invariant forall k :: i <= k < BITMAP_SIZE ==> b.bits[k] == bs[k] && c.bits[k] == cs[k]
        invariant cardinal == CountUpTo(bits[..], i)
      {
        AndFits(b.bits[i], c.bits[i], LONG_BIT);
        ghost var before := bits[..];
        bits[i] := And(b.bits[i], c.bits[i]);
        var n := CountBits(bits[i]);
        PopCountIsSize(bits[i], LONG_BIT);
        CountIgnoresLater(before, bits[..], i);
        cardinal := cardinal + n;
      }
      CountIsSize(bits[..], BITMAP_SIZE);
      IntersectionMembers(bs, cs, bits[..]);
    }

    /** `starpu_bitmap_unset_all`, for either byte order: some workers may stay, and the cached cardinal does. A bitmap
        that was well-formed stays so exactly when no worker was in the bytes that are cleared. */
    method UnsetAll(sizeofLong: Positive, bigEndian: bool)
      requires Shape() && LONG_BIT == 8 * sizeofLong
      modifies bits
      ensures Members() == LeftByUnsetAll(old(Members()), sizeofLong, bigEndian)
      ensures Valid() <==> cardinal == |LeftByUnsetAll(old(Members()), sizeofLong, bigEndian)|
      ensures old(Valid()) ==> (Valid() <==> Members() == old(Members()))
    {
      ghost var was := bits[..];
      assert FromByte(MembersOf(was), sizeofLong, bigEndian, 0) == MembersOf(was);
      var bytes := BITMAP_SIZE - 1 + 1 * sizeofLong;
      for k := 0 to bytes
        invariant MembersOf(bits[..]) == FromByte(MembersOf(was), sizeofLong, bigEndian, k)
      {
        ghost var before := bits[..];
        ClearByte(MembersOf(was), before, sizeofLong, bigEndian, k);
        var q, j := CDiv(k, sizeofLong), CMod(k, sizeofLong);
        bits[q] := WithoutByte(bits[q], Lane(sizeofLong, bigEndian, j));
        assert bits[..] == before[q := bits[q]];
      }
      SameSize(MembersOf(bits[..]), MembersOf(was));
    }

    /** `starpu_bitmap_first` */
    method First() returns (r: int)
      requires Shape()
      ensures -1 <= r && IsNext(Members(), -1, r)
    {
      var i := 0;
      while i < BITMAP_SIZE && bits[i] == 0
        invariant 0 <= i <= BITMAP_SIZE
        invariant ClearBetween(bits[..], 0, 0, i, 0)
      {
        ZeroWordClear(bits[..], 0, 0, i);
        i := i + 1;
      }
      if i == BITMAP_SIZE {
        NoneAfter(bits[..], 0, 0);
        return -1;
      }
      var rank := FirstBitRank(bits[i]);
      r := i * LONG_BIT + rank;
      FirstAfter(bits[..], 0, 0, i, rank);
    }

    /** `starpu_bitmap_next`, from -1 on. */
    method Next(e: int) returns (r: int)
      requires Shape() && -1 <= e < CAPACITY
      ensures -1 <= r && IsNext(Members(), e, r)
    {
      var q := CDiv(e, LONG_BIT);
      var bit := CMod(e, LONG_BIT);
      TruncatedPosition(e);
      ghost var from := q;
      RestBits(bits[q], bit + 1);
      var rest := if bit == LONG_BIT - 1 then 0 else And(Shl(Not(0, LONG_BIT), bit + 1, LONG_BIT), bits[q]);
      if bit != LONG_BIT - 1 && rest != 0 {
        var rank := FirstBitRank(rest);
        forall j: nat | bit + 1 <= j < rank
          ensures !Bit(bits[q], j)
        {
          assert !Bit(rest, j);
        }
        FirstAfter(bits[..], q, bit + 1, q, rank);
        return q * LONG_BIT + rank;
      }
      q := q + 1;
      assert ClearBetween(bits[..], from, bit + 1, q, 0);
      while q < BITMAP_SIZE
        invariant from < q <= BITMAP_SIZE
        invariant ClearBetween(bits[..], from, bit + 1, q, 0)
      {
        if bits[q] != 0 {
          var rank := FirstBitRank(bits[q]);
          FirstAfter(bits[..], from, bit + 1, q, rank);
          return q * LONG_BIT + rank;
        }
        ZeroWordClear(bits[..], from, bit + 1, q);
        q := q + 1;
      }
      NoneAfter(bits[..], from, bit + 1);
      r := -1;
    }

    /** `starpu_bitmap_has_next`: whether a member follows `e`. */
    method HasNext(e: int) returns (r: bool)
      requires Shape() && -1 <= e && e + 1 < CAPACITY
      ensures r <==> !IsNext(Members(), e, -1)
    {
      var q := CDiv(e + 1, LONG_BIT);
      var bit := CMod(e + 1, LONG_BIT);
      TruncatedPosition(e + 1);
      InCapacity(e + 1);
      ghost var from := q;
      RestBits(bits[q], bit);
      if And(bits[q], Shl(Not(0, LONG_BIT), bit, LONG_BIT)) != 0 {
        AndCommutes(bits[q], Shl(Not(0, LONG_BIT), bit, LONG_BIT));
        ghost var i :| bit <= i < LONG_BIT && Bit(bits[q], i);
        MemberAfter(bits[..], from, bit, q, i);
        return true;
      }
      AndCommutes(bits[q], Shl(Not(0, LONG_BIT), bit, LONG_BIT));
      q := q + 1;
      assert ClearBetween(bits[..], from, bit, q, 0);
      while q < BITMAP_SIZE
        invariant from < q <= BITMAP_SIZE
        invariant ClearBetween(bits[..], from, bit, q, 0)
      {
        if bits[q] != 0 {
          ghost var i := SomeBit(bits[q]);
          if LONG_BIT <= i {
            NoHighBit(bits[q], LONG_BIT, i);
          }
          MemberAfter(bits[..], from, bit, q, i);
          return true;
        }
        ZeroWordClear(bits[..], from, bit, q);
        q := q + 1;
      }
      NoneAfter(bits[..], from, bit);
      r := false;
    }

    /** `starpu_bitmap_last` with the GCC builtin: -1 when the cached cardinal is 0, otherwise one more than the
        largest member. */
    method Last() returns (r: int)
      requires Shape() && (cardinal != 0 ==> Members() != {})
      ensures if cardinal == 0 then r == -1
              else r - 1 in Members() && forall m :: m in Members() ==> m < r
    {
      if cardinal == 0 {
        return -1;
      }
      var q := BITMAP_SIZE - 1;
      while 0 <= q && bits[q] == 0
        invariant -1 <= q < BITMAP_SIZE
        invariant forall k :: q < k < BITMAP_SIZE ==> bits[k] == 0
      {
        q := q - 1;
      }
      if q < 0 {
        NoMembers(bits[..]);
        assert false;
      }
      r := q * LONG_BIT + LastBitRank(bits[q]);
      LastMember(bits[..], q, LastBitRank(bits[q]));
    }
  }

  // ---------------------------------------------------------------- iteration and self-check

  ghost predicate Increasing(visited: seq<nat>) {
    forall i, j {:trigger visited[i], visited[j]} :: 0 <= i < j < |visited| ==> visited[i] < visited[j]
  }

  /** The usual loop over a worker bitmap, from `first` through `next` until -1: it visits every member exactly once,
      in increasing order, and makes as many visits as a well-formed bitmap has in its cached cardinal. */
  method Visit(b: WorkerBitmap) returns (visited: seq<nat>)
    requires b.Shape()
    ensures Increasing(visited)
    ensures forall m: nat :: m in b.Members() <==> m in visited
    ensures |visited| == |b.Members()|
    ensures b.Valid() ==> |visited| == b.cardinal
  {
    visited := [];
    var w := b.First();
    ghost var s := b.Members();
    FirstRank(s, w);
    while w != -1
      invariant w == -1 || w in s
      invariant -1 <= w && Increasing(visited)
      invariant forall m: nat {:trigger m in visited} :: m in visited <==> m in s && (w == -1 || m < w)
      invariant |visited| == if w == -1 then |s| else |Below(s, w)|
      decreases if w == -1 then 0 else CAPACITY - w
    {
      MembersBelow(b.bits[..], w);
      assert forall i :: 0 <= i < |visited| ==> visited[i] in visited;
      visited := visited + [w];
      ghost var from := w;
      w := b.Next(w);
      NextRank(s, from, w);
      if w != -1 {
        MembersBelow(b.bits[..], w);
      }
    }
  }

  lemma FirstRank(s: set<nat>, r: int)
    requires IsNext(s, -1, r)
    ensures if r == -1 then s == {} else Below(s, r) == {}
  {
  }

  /** `_starpu_check_bitmap`: whatever the bits and the cached cardinal are, it accepts exactly when the cardinal, or
      0 if it is negative, is the number of set bits. */
  method CheckBitmap(b: WorkerBitmap) returns (ok: bool)
    requires b.Shape()
    ensures ok <==> (if b.cardinal < 0 then 0 else b.cardinal) == |b.Members()|
  {
    var card := b.cardinal;
    var i := b.First();
    ghost var s := b.Members();
    FirstRank(s, i);
    var j := 0;
    while j < card
      invariant 0 <= j && (j <= card || j == 0) && -1 <= i
      invariant if i == -1 then |s| == j else i in s && |Below(s, i)| == j
    {
      if i == -1 {
        return false;
      }
      MembersBelow(b.bits[..], i);
      var tmp := b.Next(i);
      NextRank(s, i, tmp);
      if tmp == i {
        return false;
      }
      i := tmp;
      j := j + 1;
    }
    if i != -1 {
      BelowSmaller(s, i);
      return false;
    }
    ok := true;
  }

  lemma BelowSmaller(s: set<nat>, m: nat)
    requires m in s
    ensures |Below(s, m)| < |s|
  {
    assert Below(s, m) <= s - {m};
    SubsetSize(Below(s, m), s - {m});
  }

  lemma SameSize(a: set<nat>, b: set<nat>)
    requires a <= b
    ensures |a| == |b| <==> a == b
  {
    if x :| x in b && x !in a {
      SubsetSize(a, b - {x});
    }
  }

  lemma {:induction false} SubsetSize(a: set<nat>, b: set<nat>)
    requires a <= b
    ensures |a| <= |b|
  {
    if a != {} {
      var x :| x in a;
      SubsetSize(a - {x}, b - {x});
    }
  }

  /** `next` from -1 is `first`, and `has_next` says whether `next` finds anything. */
  method ScansAgree(b: WorkerBitmap, e: int) returns (first: int, start: int, more: bool, next: int)
    requires b.Shape() && -1 <= e && e + 1 < CAPACITY
    ensures start == first
    ensures more <==> next != -1
    ensures IsNext(b.Members(), -1, first) && IsNext(b.Members(), e, next)
  {
    first := b.First();
    start := b.Next(-1);
    NextUnique(b.Members(), -1, first, start);
    more := b.HasNext(e);
    next := b.Next(e);
  }

  // ---------------------------------------------------------------- runs

  /** One call on a pool of bitmaps, which are named by their index. */
  datatype Call =
    | CallInit(a: nat)
    | CallSet(a: nat, e: nat)
    | CallUnset(a: nat, e: nat)
    | CallOr(a: nat, b: nat)
    | CallUnsetAnd(a: nat, b: nat, c: nat)

  predicate Allowed(call: Call, n: nat) {
    && call.a < n
    && (call.CallSet? ==> call.e < CAPACITY)
    && (call.CallOr? || call.CallUnsetAnd? ==> call.b < n)
    && (call.CallUnsetAnd? ==> call.c < n)
  }

  /** What a call makes of the set of its bitmap, `b` and `c` being the sets of its operands. */
  function OnSet(call: Call, own: set<nat>, b: set<nat>, c: set<nat>): (r: set<nat>) {
    match call
    case CallInit(_) => {}
    case CallSet(_, e) => own + {e}
    case CallUnset(_, e) => own - {e}
    case CallOr(_, _) => own + b
    case CallUnsetAnd(_, _, _) => b * c
  }

  /** The operands of a call; the bitmap itself where it has none. */
  function SecondOf(call: Call): (i: nat) {
    if call.CallOr? || call.CallUnsetAnd? then call.b else call.a
  }

  function ThirdOf(call: Call): (i: nat) {
    if call.CallUnsetAnd? then call.c else call.a
  }

  /** The same call on mathematical sets. */
  function OnSets(sets: seq<set<nat>>, call: Call): (r: seq<set<nat>>)
    requires Allowed(call, |sets|)
    ensures |r| == |sets|
  {
    sets[call.a := OnSet(call, sets[call.a], sets[SecondOf(call)], sets[ThirdOf(call)])]
  }

  function RunOnSets(sets: seq<set<nat>>, calls: seq<Call>): (r: seq<set<nat>>)
    requires forall k :: 0 <= k < |calls| ==> Allowed(calls[k], |sets|)
    ensures |r| == |sets|
  {
    if calls == [] then sets
    else OnSets(RunOnSets(sets, calls[..|calls| - 1]), calls[|calls| - 1])
  }

  /** Bitmaps of a pool share nothing. */
  ghost predicate Separate(pool: seq<WorkerBitmap>) {
    forall i, j {:trigger pool[i], pool[j]} :: 0 <= i < j < |pool| ==> pool[i] != pool[j] && pool[i].bits != pool[j].bits
  }

  ghost predicate Refines(pool: seq<WorkerBitmap>, sets: seq<set<nat>>)
    reads set i | 0 <= i < |pool| :: pool[i], set i | 0 <= i < |pool| :: pool[i].bits
  {
    |sets| == |pool|
    && forall i {:trigger pool[i]} :: 0 <= i < |pool| ==> pool[i].Valid() && pool[i].Members() == sets[i]
  }

  method Dispatch(call: Call, a: WorkerBitmap, b: WorkerBitmap, c: WorkerBitmap)
    requires a.Valid() && b.Valid() && c.Valid() && (call.CallSet? ==> call.e < CAPACITY)
    requires (b == a || b.bits != a.bits) && (c == a || c.bits != a.bits)
    modifies a, a.bits
    ensures a.Valid() && a.Members() == OnSet(call, old(a.Members()), old(b.Members()), old(c.Members()))
  {
    match call {
      case CallInit(_) => a.Init();
      case CallSet(_, e) => a.Set(e);
      case CallUnset(_, e) => a.Unset(e);
      case CallOr(_, _) => a.Union(b);
      case CallUnsetAnd(_, _, _) => a.Intersect(b, c);
    }
  }

  /** One call on the words does what it does on the sets, and keeps every cardinal right. */
  method Perform(pool: seq<WorkerBitmap>, call: Call, ghost sets: seq<set<nat>>)
    requires Separate(pool) && Refines(pool, sets) && Allowed(call, |pool|)
    modifies pool[call.a], pool[call.a].bits
    ensures Refines(pool, OnSets(sets, call))
  {
    Dispatch(call, pool[call.a], pool[SecondOf(call)], pool[ThirdOf(call)]);
    forall i | 0 <= i < |pool| && i != call.a
      ensures pool[i].Valid() && pool[i].Members() == sets[i]
    {
      assert pool[i] != pool[call.a] && pool[i].bits != pool[call.a].bits;
    }
  }

  /** Refinement over whole runs: after any sequence of calls on any pool, aliased operands included, every bitmap
      denotes the set computed by the set operations, and its cached cardinal is that set's size. */
  method Run(pool: seq<WorkerBitmap>, calls: seq<Call>, ghost sets: seq<set<nat>>)
    requires Separate(pool) && Refines(pool, sets)
    requires forall k :: 0 <= k < |calls| ==> Allowed(calls[k], |pool|)
    modifies set i | 0 <= i < |pool| :: pool[i], set i | 0 <= i < |pool| :: pool[i].bits
    ensures Refines(pool, RunOnSets(sets, calls))
  {
    for k := 0 to |calls|
      invariant Refines(pool, RunOnSets(sets, calls[..k]))
    {
      Perform(pool, calls[k], RunOnSets(sets, calls[..k]));
      assert calls[..k + 1][..k] == calls[..k];
    }
    assert calls[..|calls|] == calls;
  }
}
