/** The instances of the loops in include/starpu_util.h: `starpu_atomic_add*` (expr is `old + value`) and
    `starpu_atomic_or*` (expr is `old | value`), and what the callers rely on. */
module AtomicOps {
  import opened Arith
  import opened AtomicRmw
  import opened Words

  // ---------------------------------------------------------------- add

  /** `old + value` on an unsigned word with `modulus` values. */
  function AddExpr(modulus: Positive): (nat, nat) -> nat {
    (x, y) => CMod(x + y, modulus)
  }

  function Sum(vs: seq<nat>): (n: nat) {
    if vs == [] then 0 else Sum(vs[..|vs| - 1]) + vs[|vs| - 1]
  }

  /** All operands that the threads still have to add. */
  function SumTodo(ths: seq<Thread<nat>>): (n: nat) {
    if ths == [] then 0 else Sum(ths[0].todo) + SumTodo(ths[1..])
  }

  function SumProgram(prog: seq<seq<nat>>): (n: nat) {
    if prog == [] then 0 else Sum(prog[0]) + SumProgram(prog[1..])
  }

  /** Sequential additions, each reduced, amount to one reduction of the whole sum. */
  lemma {:induction false} SequentialAdd(modulus: Positive, init: nat, vs: seq<nat>)
    requires init < modulus
    ensures Sequential(AddExpr(modulus), init, vs) == CMod(init + Sum(vs), modulus)
  {
    if vs != [] {
      var front, v := vs[..|vs| - 1], vs[|vs| - 1];
      SequentialAdd(modulus, init, front);
      ModAdd(init + Sum(front), v, modulus);
    }
  }

  /** Call k returned the running sum up to and including its own operand. */
  ghost predicate ReturnsSum(modulus: Positive, init: nat, log: seq<Commit<nat>>, k: nat) {
    k < |log| && log[k].ret == CMod(init + Sum(Values(log[..k + 1])), modulus)
  }

  /** In every interleaving the word is the initial value plus all committed operands modulo the word size, and
      each call returned that sum up to and including its own operand. */
  lemma AddIsSumOfCommitted(modulus: Positive, init: nat, prog: seq<seq<nat>>, sched: seq<nat>)
    requires init < modulus
    requires Schedulable(AddExpr(modulus), Start(init, prog), sched)
    ensures var s := Exec(AddExpr(modulus), Start(init, prog), sched);
      && s.word == CMod(init + Sum(Values(s.log)), modulus)
      && forall k: nat {:trigger ReturnsSum(modulus, init, s.log, k)} :: k < |s.log| ==>
           ReturnsSum(modulus, init, s.log, k)
  {
    Linearizable(AddExpr(modulus), init, prog, sched);
    var s := Exec(AddExpr(modulus), Start(init, prog), sched);
    SequentialAdd(modulus, init, Values(s.log));
    forall k: nat | k < |s.log|
      ensures ReturnsSum(modulus, init, s.log, k)
    {
      assert ReturnsInOrder(AddExpr(modulus), init, s.log, k);
      RunningSum(modulus, init, s.log, k);
    }
  }

  lemma RunningSum(modulus: Positive, init: nat, log: seq<Commit<nat>>, k: nat)
    requires init < modulus && ReturnsInOrder(AddExpr(modulus), init, log, k)
    ensures ReturnsSum(modulus, init, log, k)
  {
    SequentialAdd(modulus, init, Values(log[..k + 1]));
  }

  lemma {:induction false} SumSplitsHead(vs: seq<nat>)
    requires vs != []
    ensures Sum(vs) == vs[0] + Sum(vs[1..])
  {
    if |vs| > 1 {
      SumSplitsHead(vs[..|vs| - 1]);
      assert vs[..|vs| - 1][1..] == vs[1..][..|vs[1..]| - 1];
    }
  }

  lemma {:induction false} SumTodoAfterUpdate(ths: seq<Thread<nat>>, i: nat, th: Thread<nat>)
    requires i < |ths|
    ensures SumTodo(ths[i := th]) == SumTodo(ths) - Sum(ths[i].todo) + Sum(th.todo)
  {
    var ths' := ths[i := th];
    if i == 0 {
      assert ths'[1..] == ths[1..];
    } else {
      assert ths'[1..] == ths[1..][i - 1 := th];
      SumTodoAfterUpdate(ths[1..], i - 1, th);
    }
  }

  lemma {:induction false} SumConserved(expr: (nat, nat) -> nat, s: State<nat>, sched: seq<nat>)
    requires Schedulable(expr, s, sched)
    ensures var s' := Exec(expr, s, sched);
      Sum(Values(s'.log)) + SumTodo(s'.threads) == Sum(Values(s.log)) + SumTodo(s.threads)
    decreases |sched|
  {
    if sched != [] {
      StepConservesSum(expr, s, sched[0]);
      SumConserved(expr, Step(expr, s, sched[0]), sched[1..]);
    }
  }

  lemma StepConservesSum(expr: (nat, nat) -> nat, s: State<nat>, i: nat)
    requires Runnable(s, i)
    ensures var s' := Step(expr, s, i);
      Sum(Values(s'.log)) + SumTodo(s'.threads) == Sum(Values(s.log)) + SumTodo(s.threads)
  {
    var s' := Step(expr, s, i);
    SumTodoAfterUpdate(s.threads, i, s'.threads[i]);
    if s'.log != s.log {
      SumSplitsHead(s.threads[i].todo);
      assert Values(s'.log)[..|s'.log| - 1] == Values(s.log);
    }
  }

  lemma {:induction false} StartSum(init: nat, prog: seq<seq<nat>>)
    ensures SumTodo(Start(init, prog).threads) == SumProgram(prog)
  {
    if prog != [] {
      StartSum(init, prog[1..]);
      assert Start(init, prog).threads[1..] == Start(init, prog[1..]).threads;
    }
  }

  lemma {:induction false} NothingLeft(ths: seq<Thread<nat>>)
    requires forall i {:trigger ths[i]} :: 0 <= i < |ths| ==> ths[i].todo == []
    ensures SumTodo(ths) == 0 && Remaining(ths) == 0
  {
    if ths != [] {
      assert forall i {:trigger ths[1..][i]} :: 0 <= i < |ths[1..]| ==> ths[1..][i] == ths[i + 1];
      NothingLeft(ths[1..]);
    }
  }

  lemma FinishedNothingLeft(s: State<nat>)
    requires Finished(s)
    ensures SumTodo(s.threads) == 0 && Remaining(s.threads) == 0
  {
    forall i | 0 <= i < |s.threads|
      ensures s.threads[i].todo == []
    {
      assert !Runnable(s, i);
    }
    NothingLeft(s.threads);
  }

  /** The outcome does not depend on the schedule: once every call has returned, the word holds the initial
      value plus everything the programs add, modulo the word size. */
  lemma AddOutcome(modulus: Positive, init: nat, prog: seq<seq<nat>>, sched: seq<nat>)
    requires init < modulus
    requires Schedulable(AddExpr(modulus), Start(init, prog), sched)
    requires Finished(Exec(AddExpr(modulus), Start(init, prog), sched))
    ensures Exec(AddExpr(modulus), Start(init, prog), sched).word == CMod(init + SumProgram(prog), modulus)
  {
    AddIsSumOfCommitted(modulus, init, prog, sched);
    SumConserved(AddExpr(modulus), Start(init, prog), sched);
    StartSum(init, prog);
    FinishedNothingLeft(Exec(AddExpr(modulus), Start(init, prog), sched));
  }

  /** Every call of every thread has operand `v`. */
  ghost predicate AllOperands(prog: seq<seq<nat>>, v: nat) {
    forall i, j {:trigger prog[i][j]} :: 0 <= i < |prog| && 0 <= j < |prog[i]| ==> prog[i][j] == v
  }

  ghost predicate TodoOperands(ths: seq<Thread<nat>>, v: nat) {
    forall i, j {:trigger ths[i].todo[j]} :: 0 <= i < |ths| && 0 <= j < |ths[i].todo| ==> ths[i].todo[j] == v
  }

  lemma {:induction false} LogOperands(expr: (nat, nat) -> nat, s: State<nat>, sched: seq<nat>, v: nat)
    requires Schedulable(expr, s, sched)
    requires TodoOperands(s.threads, v)
    requires forall k {:trigger s.log[k]} :: 0 <= k < |s.log| ==> s.log[k].value == v
    ensures var log := Exec(expr, s, sched).log;
      forall k {:trigger log[k]} :: 0 <= k < |log| ==> log[k].value == v
    decreases |sched|
  {
    if sched != [] {
      var i := sched[0];
      var s1 := Step(expr, s, i);
      assert s.threads[i].todo[0] == v;
      assert s1.log != s.log ==> s1.log == s.log + [s1.log[|s.log|]] && s1.log[|s.log|].value == v;
      assert TodoOperands(s1.threads, v) by {
        forall a, b | 0 <= a < |s1.threads| && 0 <= b < |s1.threads[a].todo|
          ensures s1.threads[a].todo[b] == v
        {
          if a == i && s1.threads[a].todo != s.threads[a].todo {
            assert s1.threads[a].todo[b] == s.threads[a].todo[b + 1];
          } else {
            assert s1.threads[a].todo[b] == s.threads[a].todo[b];
          }
        }
      }
      LogOperands(expr, s1, sched[1..], v);
      assert Exec(expr, s, sched) == Exec(expr, s1, sched[1..]);
    }
  }

  lemma {:induction false} SumOfEqual(vs: seq<nat>, v: nat)
    requires forall k :: 0 <= k < |vs| ==> vs[k] == v
    ensures Sum(vs) == |vs| * v
  {
    if vs != [] {
      SumOfEqual(vs[..|vs| - 1], v);
    }
  }

  /** When every operand is `v`, the k-th call to return gets the initial value plus (k+1) times `v`. */
  lemma EqualOperandReturns(modulus: Positive, init: nat, prog: seq<seq<nat>>, sched: seq<nat>, v: nat)
    requires init < modulus && AllOperands(prog, v)
    requires Schedulable(AddExpr(modulus), Start(init, prog), sched)
    ensures var log := Exec(AddExpr(modulus), Start(init, prog), sched).log;
      forall k {:trigger log[k]} :: 0 <= k < |log| ==> log[k].ret == CMod(init + (k + 1) * v, modulus)
  {
    AddIsSumOfCommitted(modulus, init, prog, sched);
    LogOperands(AddExpr(modulus), Start(init, prog), sched, v);
    var log := Exec(AddExpr(modulus), Start(init, prog), sched).log;
    forall k | 0 <= k < |log|
      ensures log[k].ret == CMod(init + (k + 1) * v, modulus)
    {
      assert ReturnsSum(modulus, init, log, k);
      SumOfEqual(Values(log[..k + 1]), v);
    }
  }

  ghost predicate DistinctReturns(log: seq<Commit<nat>>) {
    forall j, k {:trigger log[j], log[k]} :: 0 <= j < k < |log| ==> log[j].ret != log[k].ret
  }

  /** Concurrent increments hand out tickets: the values returned are pairwise distinct exactly as long as no
      more calls have returned than the word has values. */
  lemma IncrementTickets(modulus: Positive, init: nat, prog: seq<seq<nat>>, sched: seq<nat>)
    requires init < modulus && AllOperands(prog, 1)
    requires Schedulable(AddExpr(modulus), Start(init, prog), sched)
    ensures var log := Exec(AddExpr(modulus), Start(init, prog), sched).log;
      DistinctReturns(log) <==> |log| <= modulus
  {
    EqualOperandReturns(modulus, init, prog, sched, 1);
    var log := Exec(AddExpr(modulus), Start(init, prog), sched).log;
    if |log| <= modulus {
      forall j, k | 0 <= j < k < |log|
        ensures log[j].ret != log[k].ret
      {
        ModDistinct(init + j + 1, init + k + 1, modulus);
      }
    } else {
      ModShift(init + 1, 1, modulus);
      assert log[0].ret == CMod(init + 1, modulus);
      assert log[modulus].ret == CMod(1 * modulus + (init + 1), modulus);
      assert log[0].ret == log[modulus].ret;
    }
  }

  /** Adding -1 to an unsigned word is adding modulus - 1. */
  lemma Countdown(modulus: Positive, init: nat, k: nat)
    requires k <= init < modulus
    ensures CMod(init + k * (modulus - 1), modulus) == init - k
  {
    assert init + k * (modulus - 1) == k * modulus + (init - k);
    ModShift(init - k, k, modulus);
  }

  /** Which calls have returned zero. */
  ghost predicate SeesZero(log: seq<Commit<nat>>, k: nat) {
    k < |log| && log[k].ret == 0
  }

  /** The completion-group countdown: a counter starts at the number of notifiers, each of which adds -1 once. In every
      interleaving exactly the last call to return sees zero, so exactly one notifier completes the group, and only once
      all of them have notified: no call is in progress any more that could race with its plain store of the reset. */
  lemma OneNotifierSeesZero(modulus: Positive, prog: seq<seq<nat>>, sched: seq<nat>)
    requires TotalCalls(prog) < modulus && AllOperands(prog, modulus - 1)
    requires Schedulable(AddExpr(modulus), Start(TotalCalls(prog), prog), sched)
    ensures var s := Exec(AddExpr(modulus), Start(TotalCalls(prog), prog), sched);
      && |s.log| <= TotalCalls(prog)
      && (forall k: nat {:trigger SeesZero(s.log, k)} :: k < |s.log| ==>
            (SeesZero(s.log, k) <==> k == TotalCalls(prog) - 1))
      && (forall k: nat {:trigger SeesZero(s.log, k)} :: SeesZero(s.log, k) ==> Finished(s))
      && (Finished(s) ==> |s.log| == TotalCalls(prog))
  {
    var n := TotalCalls(prog);
    EqualOperandReturns(modulus, n, prog, sched, modulus - 1);
    CallsConserved(AddExpr(modulus), Start(n, prog), sched);
    StartCounts(n, prog);
    var s := Exec(AddExpr(modulus), Start(n, prog), sched);
    forall k: nat | k < |s.log|
      ensures SeesZero(s.log, k) <==> k == n - 1
    {
      Countdown(modulus, n, k + 1);
    }
    if Remaining(s.threads) == 0 {
      NoneLeftIsFinished(s);
    }
    if Finished(s) {
      FinishedNothingLeft(s);
    }
  }

  lemma NoneLeftIsFinished(s: State<nat>)
    requires Remaining(s.threads) == 0
    ensures Finished(s)
  {
    forall i: nat | i < |s.threads|
      ensures s.threads[i].todo == []
    {
      CountsAfterUpdate(s.threads, i, Thread(AtRead, []), s.word);
    }
  }

  /** The programs and the schedule of one use of the group. */
  datatype Use = Use(prog: seq<seq<nat>>, sched: seq<nat>)

  /** What the counter is once the calls have returned: whoever sees zero stores `ntags` for the next use. */
  ghost function CounterAfter(ntags: nat, s: State<nat>): (word: nat) {
    if exists k: nat {:trigger SeesZero(s.log, k)} :: SeesZero(s.log, k) then ntags else s.word
  }

  /** Some of the notifiers, in any interleaving: the counter says how many are still to come, and starts again when there
      are none. */
  lemma CounterCountsDown(modulus: Positive, ntags: nat, prog: seq<seq<nat>>, sched: seq<nat>)
    requires 0 < ntags < modulus && TotalCalls(prog) <= ntags && AllOperands(prog, modulus - 1)
    requires Schedulable(AddExpr(modulus), Start(ntags, prog), sched)
    ensures var s := Exec(AddExpr(modulus), Start(ntags, prog), sched);
      CounterAfter(ntags, s) == if |s.log| == ntags then ntags else ntags - |s.log|
  {
    var s := Exec(AddExpr(modulus), Start(ntags, prog), sched);
    EqualOperandReturns(modulus, ntags, prog, sched, modulus - 1);
    CallsConserved(AddExpr(modulus), Start(ntags, prog), sched);
    StartCounts(ntags, prog);
    forall k: nat | k < |s.log|
      ensures s.log[k].ret == ntags - (k + 1)
    {
      Countdown(modulus, ntags, k + 1);
    }
    if |s.log| == ntags {
      assert SeesZero(s.log, ntags - 1);
    }
    WordIsLastReturn(modulus, ntags, prog, sched);
  }

  lemma WordIsLastReturn(modulus: Positive, init: nat, prog: seq<seq<nat>>, sched: seq<nat>)
    requires Schedulable(AddExpr(modulus), Start(init, prog), sched)
    ensures var s := Exec(AddExpr(modulus), Start(init, prog), sched);
      s.word == if s.log == [] then init else s.log[|s.log| - 1].ret
  {
    Linearizable(AddExpr(modulus), init, prog, sched);
    var s := Exec(AddExpr(modulus), Start(init, prog), sched);
    if s.log != [] {
      assert ReturnsInOrder(AddExpr(modulus), init, s.log, |s.log| - 1);
      assert s.log[..|s.log|] == s.log;
    }
  }

  /** The counter before use g. */
  ghost function CounterBefore(modulus: Positive, ntags: nat, uses: seq<Use>, g: nat): (word: nat)
    requires g <= |uses|
  {
    if g == 0 then ntags
    else
      var word, use := CounterBefore(modulus, ntags, uses, g - 1), uses[g - 1];
      if !Schedulable(AddExpr(modulus), Start(word, use.prog), use.sched) then word
      else CounterAfter(ntags, Exec(AddExpr(modulus), Start(word, use.prog), use.sched))
  }

  /** A use by `ntags` notifiers that starts at this counter and runs until all of them have returned. */
  ghost predicate Complete(modulus: Positive, ntags: nat, word: nat, use: Use) {
    && TotalCalls(use.prog) == ntags && AllOperands(use.prog, modulus - 1)
    && Schedulable(AddExpr(modulus), Start(word, use.prog), use.sched)
    && Finished(Exec(AddExpr(modulus), Start(word, use.prog), use.sched))
  }

  ghost predicate OnlyLastSeesZero(modulus: Positive, ntags: nat, use: Use)
    requires Schedulable(AddExpr(modulus), Start(ntags, use.prog), use.sched)
  {
    var log := Exec(AddExpr(modulus), Start(ntags, use.prog), use.sched).log;
    forall k: nat {:trigger SeesZero(log, k)} :: SeesZero(log, k) <==> k == ntags - 1
  }

  lemma UseCompletes(modulus: Positive, ntags: nat, use: Use)
    requires 0 < ntags < modulus && Complete(modulus, ntags, ntags, use)
    ensures OnlyLastSeesZero(modulus, ntags, use)
  {
    OneNotifierSeesZero(modulus, use.prog, use.sched);
  }

  /** The group can be used again and again: as long as each use is complete, from whatever the counter then is, the
      counter is `ntags` before each of them, and in each exactly one notifier completes the group. */
  lemma {:induction false} GroupIsReusable(modulus: Positive, ntags: nat, uses: seq<Use>, g: nat)
    requires 0 < ntags < modulus && g < |uses|
    requires forall i: nat {:trigger CounterBefore(modulus, ntags, uses, i)} :: i < |uses| ==>
      Complete(modulus, ntags, CounterBefore(modulus, ntags, uses, i), uses[i])
    ensures CounterBefore(modulus, ntags, uses, g) == ntags
    ensures Complete(modulus, ntags, ntags, uses[g]) && OnlyLastSeesZero(modulus, ntags, uses[g])
  {
    if g > 0 {
      GroupIsReusable(modulus, ntags, uses, g - 1);
      var log := Exec(AddExpr(modulus), Start(ntags, uses[g - 1].prog), uses[g - 1].sched).log;
      assert SeesZero(log, ntags - 1);
    }
    assert CounterBefore(modulus, ntags, uses, g) == ntags;
    UseCompletes(modulus, ntags, uses[g]);
  }

  // ---------------------------------------------------------------- or

  const OR_EXPR: (nat, nat) -> nat := (x: nat, y: nat) => Or(x, y)

  /** Bit `i` is set in some operand. */
  ghost predicate SomeOperandHas(vs: seq<nat>, i: nat) {
    exists k {:trigger vs[k]} :: 0 <= k < |vs| && Bit(vs[k], i)
  }

  lemma {:induction false} SequentialOr(init: nat, vs: seq<nat>, i: nat)
    ensures Bit(Sequential(OR_EXPR, init, vs), i) <==> Bit(init, i) || SomeOperandHas(vs, i)
  {
    if vs != [] {
      var front, v := vs[..|vs| - 1], vs[|vs| - 1];
      SequentialOr(init, front, i);
      BitOr(Sequential(OR_EXPR, init, front), v, i);
      if SomeOperandHas(front, i) {
        var k :| 0 <= k < |front| && Bit(front[k], i);
        assert Bit(vs[k], i);
      }
      if SomeOperandHas(vs, i) && !Bit(v, i) {
        var k :| 0 <= k < |vs| && Bit(vs[k], i);
        assert Bit(front[k], i);
      }
    }
  }

  /** In every interleaving the bits of the word are the initial ones and those of the committed operands. */
  lemma OrIsUnionOfCommitted(init: nat, prog: seq<seq<nat>>, sched: seq<nat>, i: nat)
    requires Schedulable(OR_EXPR, Start(init, prog), sched)
    ensures var s := Exec(OR_EXPR, Start(init, prog), sched);
      Bit(s.word, i) <==> Bit(init, i) || SomeOperandHas(Values(s.log), i)
  {
    Linearizable(OR_EXPR, init, prog, sched);
    SequentialOr(init, Values(Exec(OR_EXPR, Start(init, prog), sched).log), i);
  }

  /** All bits of `part` are set in `whole`. */
  ghost predicate Includes(whole: nat, part: nat) {
    forall i: nat :: Bit(part, i) ==> Bit(whole, i)
  }

  lemma OrAbsorbs(a: nat, b: nat)
    ensures Or(a, b) == a <==> Includes(a, b)
  {
    if Or(a, b) == a {
      forall i: nat | Bit(b, i)
        ensures Bit(a, i)
      {
        BitOr(a, b, i);
      }
    }
    if Includes(a, b) {
      forall i: nat
        ensures Bit(Or(a, b), i) <==> Bit(a, i)
      {
        BitOr(a, b, i);
      }
      SameBits(Or(a, b), a);
    }
  }

  /** The comment in the header says that the atomic OR returns the old value, but the fallback returns the value
      that it installs: it returns the old one exactly when the operand's bits were all set already. */
  lemma OrReturnsOldValueWhenIncluded(init: nat, prog: seq<seq<nat>>, sched: seq<nat>, k: nat)
    requires Schedulable(OR_EXPR, Start(init, prog), sched)
    requires k < |Exec(OR_EXPR, Start(init, prog), sched).log|
    ensures var log := Exec(OR_EXPR, Start(init, prog), sched).log;
      var before := Sequential(OR_EXPR, init, Values(log[..k]));
      log[k].ret == before <==> Includes(before, log[k].value)
  {
    Linearizable(OR_EXPR, init, prog, sched);
    var log := Exec(OR_EXPR, Start(init, prog), sched).log;
    var vs := Values(log[..k + 1]);
    assert ReturnsInOrder(OR_EXPR, init, log, k);
    assert vs[..|vs| - 1] == Values(log[..k]);
    OrAbsorbs(Sequential(OR_EXPR, init, Values(log[..k])), log[k].value);
  }

  /** No bit is ever lost, whatever the other threads do. */
  lemma {:induction false} BitsAreNeverLost(s: State<nat>, sched: seq<nat>, i: nat)
    requires Schedulable(OR_EXPR, s, sched)
    requires Bit(s.word, i)
    ensures Bit(Exec(OR_EXPR, s, sched).word, i)
    decreases |sched|
  {
    if sched != [] {
      BitOr(s.word, s.threads[sched[0]].todo[0], i);
      BitsAreNeverLost(Step(OR_EXPR, s, sched[0]), sched[1..], i);
    }
  }
}
