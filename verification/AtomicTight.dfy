/** The bound on the number of memory accesses is reached: whatever calls the threads make, some schedule makes every swap
    that can fail do so. */
module AtomicTight {
  import opened Arith
  import opened AtomicRmw
  import opened AtomicOps

  /** Every call still to be made changes the word, whatever it is. */
  ghost predicate Changes<T(!new)>(expr: (T, T) -> T, ths: seq<Thread<T>>) {
    forall w, i, j {:trigger expr(w, ths[i].todo[j])} :: 0 <= i < |ths| && 0 <= j < |ths[i].todo| ==>
      expr(w, ths[i].todo[j]) != w
  }

  /** The first k threads are about to read for their next call; the others have finished. */
  ghost predicate Lined<T>(ths: seq<Thread<T>>, k: nat) {
    && k <= |ths|
    && (forall i {:trigger ths[i]} :: 0 <= i < |ths| ==> ths[i].pc == AtRead && (ths[i].todo != [] <==> i < k))
  }

  function Upto(k: nat): (sched: seq<nat>)
    ensures |sched| == k && forall i :: 0 <= i < k ==> sched[i] == i
  {
    seq(k, i => i)
  }

  // ---------------------------------------------------------------- one round

  /** The first j threads hold the word. */
  function Loaded<T>(s: State<T>, j: nat): (s': State<T>)
    requires j <= |s.threads|
  {
    s.(threads := seq(|s.threads|, i requires 0 <= i < |s.threads| =>
                        if i < j then s.threads[i].(pc := AtCas(s.word)) else s.threads[i]))
  }

  lemma {:induction false} ReadAll<T>(expr: (T, T) -> T, s: State<T>, k: nat, j: nat)
    requires Lined(s.threads, k) && j <= k
    ensures Schedulable(expr, s, Upto(j)) && Exec(expr, s, Upto(j)) == Loaded(s, j)
  {
    if j == 0 {
      assert Loaded(s, 0).threads == s.threads;
    } else {
      ReadAll(expr, s, k, j - 1);
      assert s.threads[j - 1].todo != [];
      ExecOne(expr, s, Upto(j - 1), j - 1);
      assert Upto(j - 1) + [j - 1] == Upto(j);
      assert Step(expr, Loaded(s, j - 1), j - 1).threads == Loaded(s, j).threads;
    }
  }

  /** The first j threads but w are back before their read. */
  function Failed<T>(s: State<T>, j: nat, w: nat): (s': State<T>)
    requires j <= |s.threads|
  {
    s.(threads := seq(|s.threads|, i requires 0 <= i < |s.threads| =>
                        if i < j && i != w then s.threads[i].(pc := AtRead) else s.threads[i]))
  }

  function Without(j: nat, w: nat): (sched: seq<nat>)
    ensures |sched| == if w < j then j - 1 else j
  {
    if j == 0 then [] else Without(j - 1, w) + (if j - 1 == w then [] else [j - 1])
  }

  lemma {:induction false} FailAll<T>(expr: (T, T) -> T, s: State<T>, j: nat, w: nat)
    requires j <= |s.threads|
    requires forall i {:trigger s.threads[i]} :: 0 <= i < j && i != w ==>
      s.threads[i].todo != [] && s.threads[i].pc.AtCas? && s.threads[i].pc.loaded != s.word
    ensures Schedulable(expr, s, Without(j, w)) && Exec(expr, s, Without(j, w)) == Failed(s, j, w)
  {
    if j == 0 {
      assert Failed(s, 0, w).threads == s.threads;
    } else {
      FailAll(expr, s, j - 1, w);
      if j - 1 == w {
        assert Without(j, w) == Without(j - 1, w);
        assert Failed(s, j, w).threads == Failed(s, j - 1, w).threads;
      } else {
        FailNext(expr, s, j - 1, w);
        ExecOne(expr, s, Without(j - 1, w), j - 1);
      }
    }
  }

  lemma FailNext<T>(expr: (T, T) -> T, s: State<T>, j: nat, w: nat)
    requires j < |s.threads| && j != w && s.threads[j].todo != []
    requires s.threads[j].pc.AtCas? && s.threads[j].pc.loaded != s.word
    ensures Runnable(Failed(s, j, w), j) && Step(expr, Failed(s, j, w), j) == Failed(s, j + 1, w)
  {
    assert Failed(s, j, w).threads[j] == s.threads[j];
    assert Step(expr, Failed(s, j, w), j).threads == Failed(s, j + 1, w).threads;
  }

  /** The threads after thread w has made one call. */
  function Served<T>(ths: seq<Thread<T>>, w: nat): (ths': seq<Thread<T>>)
    requires w < |ths| && ths[w].todo != []
  {
    ths[w := Thread(AtRead, ths[w].todo[1..])]
  }

  /** All k threads read, thread w swaps, and the swaps of the others fail. */
  lemma Round<T(!new)>(expr: (T, T) -> T, s: State<T>, k: nat, w: nat) returns (sched: seq<nat>)
    requires Changes(expr, s.threads) && Lined(s.threads, k) && w < k
    ensures Schedulable(expr, s, sched) && |sched| == 2 * k
    ensures Exec(expr, s, sched).threads == Served(s.threads, w)
  {
    ReadAll(expr, s, k, k);
    var s1 := Loaded(s, k);
    assert s1.threads[w] == s.threads[w].(pc := AtCas(s.word)) && s.threads[w].todo != [];
    ExecOne(expr, s, Upto(k), w);
    var s2 := Step(expr, s1, w);
    assert s2.word == expr(s.word, s.threads[w].todo[0]) && s2.word != s.word;
    forall i | 0 <= i < k && i != w
      ensures s2.threads[i].todo != [] && s2.threads[i].pc == AtCas(s.word)
    {
      assert s2.threads[i] == s1.threads[i] && s.threads[i].todo != [];
    }
    FailAll(expr, s2, k, w);
    ExecJoin(expr, s, Upto(k) + [w], Without(k, w));
    sched := Upto(k) + [w] + Without(k, w);
    assert Failed(s2, k, w).threads == Served(s.threads, w);
  }

  // ---------------------------------------------------------------- all rounds

  lemma {:induction false} CallsLeft<T>(ths: seq<Thread<T>>, k: nat)
    requires Lined(ths, k)
    ensures Remaining(ths) >= k
    ensures (forall i {:trigger ths[i]} :: 0 <= i < k ==> |ths[i].todo| == 1) <==> Remaining(ths) == k
  {
    if ths != [] {
      var rest, k' := ths[1..], if k == 0 then 0 else k - 1;
      assert forall i {:trigger rest[i]} {:trigger ths[i + 1]} :: 0 <= i < |rest| ==> rest[i] == ths[i + 1];
      CallsLeft(rest, k');
      assert ths[0].todo != [] <==> 0 < k;
      assert forall i {:trigger ths[i]} :: 0 < i < k ==> ths[i] == rest[i - 1];
    }
  }

  lemma {:induction false} BudgetIgnoresIdle(n: nat, calls: nat)
    requires calls < n
    ensures Budget(n, calls) == Budget(n - 1, calls)
  {
    if calls != 0 {
      BudgetIgnoresIdle(n, calls - 1);
    }
  }

  /** Whom to serve next: somebody with more than one call left, or else the last in line. */
  lemma Pick<T>(ths: seq<Thread<T>>, k: nat, word: T) returns (w: nat, k': nat)
    requires Lined(ths, k) && Remaining(ths) != 0
    ensures w < k && ths[w].todo != [] && Lined(Served(ths, w), k')
    ensures Remaining(Served(ths, w)) == Remaining(ths) - 1
    ensures Budget(k, Remaining(ths)) == 2 * k + Budget(k', Remaining(ths) - 1)
  {
    CallsLeft(ths, k);
    w, k' := k - 1, k - 1;
    if i :| 0 <= i < k && |ths[i].todo| != 1 {
      w, k' := i, k;
    } else {
      BudgetIgnoresIdle(k, k - 1);
    }
    assert ths[w].todo != [];
    CountsAfterUpdate(ths, w, Served(ths, w)[w], word);
  }

  lemma {:induction false} Exhaust<T(!new)>(expr: (T, T) -> T, s: State<T>, k: nat) returns (sched: seq<nat>)
    requires Changes(expr, s.threads) && Lined(s.threads, k)
    ensures Schedulable(expr, s, sched) && |sched| == Budget(k, Remaining(s.threads))
    decreases Remaining(s.threads)
  {
    if Remaining(s.threads) == 0 {
      sched := [];
    } else {
      var w, k' := Pick(s.threads, k, s.word);
      var first := Round(expr, s, k, w);
      var s' := Exec(expr, s, first);
      StillChanges(expr, s.threads, w);
      var rest := Exhaust(expr, s', k');
      ExecJoin(expr, s, first, rest);
      sched := first + rest;
    }
  }

  lemma StillChanges<T(!new)>(expr: (T, T) -> T, ths: seq<Thread<T>>, w: nat)
    requires Changes(expr, ths) && w < |ths| && ths[w].todo != []
    ensures Changes(expr, Served(ths, w))
  {
    var ths' := Served(ths, w);
    forall word, i, j | 0 <= i < |ths'| && 0 <= j < |ths'[i].todo|
      ensures expr(word, ths'[i].todo[j]) != word
    {
      assert ths'[i].todo[j] == if i == w then ths[i].todo[j + 1] else ths[i].todo[j];
    }
  }

  /** The bound of BoundedAccesses is the best possible: for every program in which each thread makes at least one call,
      and each call changes the word, some schedule takes exactly that many accesses. */
  lemma BudgetIsReached<T(!new)>(expr: (T, T) -> T, init: T, prog: seq<seq<T>>) returns (sched: seq<nat>)
    requires Changes(expr, Start(init, prog).threads)
    requires forall i {:trigger prog[i]} :: 0 <= i < |prog| ==> prog[i] != []
    ensures Schedulable(expr, Start(init, prog), sched) && |sched| == Budget(|prog|, TotalCalls(prog))
  {
    StartCounts(init, prog);
    sched := Exhaust(expr, Start(init, prog), |prog|);
  }

  /** In particular, n threads that add one each can need n(n+1) accesses. */
  lemma IncrementsReachBound(modulus: Positive, init: nat, n: nat) returns (sched: seq<nat>)
    requires 2 <= modulus
    ensures Schedulable(AddExpr(modulus), Start(init, Ones(n)), sched) && |sched| == n * (n + 1)
  {
    var s := Start(init, Ones(n));
    forall w: nat, i, j | 0 <= i < |s.threads| && 0 <= j < |s.threads[i].todo|
      ensures AddExpr(modulus)(w, s.threads[i].todo[j]) != w
    {
      assert s.threads[i].todo[j] == 1;
      if w + 1 <= modulus {
        assert CMod(w + 1, modulus) == if w + 1 == modulus then 0 else w + 1;
      }
    }
    sched := BudgetIsReached(AddExpr(modulus), init, Ones(n));
    SingletonCalls(Ones(n));
    BudgetClosedForm(n, n);
  }

  function Ones(n: nat): (prog: seq<seq<nat>>)
    ensures |prog| == n && forall i {:trigger prog[i]} :: 0 <= i < n ==> prog[i] == [1]
  {
    seq(n, i => [1])
  }
}
