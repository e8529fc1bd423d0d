/** The lock-free read-modify-write loops of include/starpu_util.h.

    Any number of threads run the fallback loops that the three macros STARPU_ATOMIC_SOMETHING,
    -L and -64 generate: read `*ptr`, compute `next`, compare-and-swap, retry on failure.
    The macro parameter `expr` is the parameter `expr` here; every memory access is one atomic step.
    The program of a thread is the sequence of operands of the calls it makes. */
module AtomicRmw {

  /** Where a thread stands inside the loop: about to read `*ptr`, or about to compare-and-swap. */
  datatype Pc<T> = AtRead | AtCas(loaded: T)

  /** `todo` holds the operands of the calls that have not returned; the first is the call in progress. */
  datatype Thread<T> = Thread(pc: Pc<T>, todo: seq<T>)

  /** One call that has returned: who made it, with which operand, and what it returned. */
  datatype Commit<T> = Commit(tid: nat, value: T, ret: T)

  datatype State<T> = State(word: T, threads: seq<Thread<T>>, log: seq<Commit<T>>)

  /** The value seen by `_starpu_cmpxchg`, and the word it leaves behind. */
  function CmpXchg<T(==)>(word: T, expected: T, next: T): (r: (T, T)) {
    (word, if word == expected then next else word)
  }

  function Start<T>(init: T, prog: seq<seq<T>>): (s: State<T>) {
    State(init, seq(|prog|, i requires 0 <= i < |prog| => Thread(AtRead, prog[i])), [])
  }

  predicate Runnable<T>(s: State<T>, i: nat) {
    i < |s.threads| && s.threads[i].todo != []
  }

  /** One memory access of thread `i`. */
  function Step<T(==)>(expr: (T, T) -> T, s: State<T>, i: nat): (s': State<T>)
    requires Runnable(s, i)
  {
    var th := s.threads[i];
    match th.pc
    case AtRead =>
      s.(threads := s.threads[i := th.(pc := AtCas(s.word))])
    case AtCas(loaded) =>
      var value := th.todo[0];
      var (seen, word') := CmpXchg(s.word, loaded, expr(loaded, value));
      if seen == loaded then
        State(word', s.threads[i := Thread(AtRead, th.todo[1..])], s.log + [Commit(i, value, expr(loaded, value))])
      else
        State(word', s.threads[i := th.(pc := AtRead)], s.log)
  }

  /** A schedule names the thread that makes each access; any thread that has not finished may be named. */
  predicate Schedulable<T(==)>(expr: (T, T) -> T, s: State<T>, sched: seq<nat>)
    decreases |sched|
  {
    sched == [] || (Runnable(s, sched[0]) && Schedulable(expr, Step(expr, s, sched[0]), sched[1..]))
  }

  function Exec<T(==)>(expr: (T, T) -> T, s: State<T>, sched: seq<nat>): (s': State<T>)
    requires Schedulable(expr, s, sched)
    decreases |sched|
  {
    if sched == [] then s else Exec(expr, Step(expr, s, sched[0]), sched[1..])
  }

  /** The sequential object: the word after performing the operations one after the other. */
  function Sequential<T>(expr: (T, T) -> T, init: T, values: seq<T>): (w: T) {
    if values == [] then init
    else expr(Sequential(expr, init, values[..|values| - 1]), values[|values| - 1])
  }

  function Values<T>(log: seq<Commit<T>>): (vs: seq<T>)
    ensures |vs| == |log|
    ensures forall k :: 0 <= k < |log| ==> vs[k] == log[k].value
  {
    seq(|log|, k requires 0 <= k < |log| => log[k].value)
  }

  /** The operands that thread `i` has committed, in log order. */
  function CommittedBy<T>(log: seq<Commit<T>>, i: nat): (vs: seq<T>) {
    if log == [] then []
    else
      var c := log[|log| - 1];
      CommittedBy(log[..|log| - 1], i) + (if c.tid == i then [c.value] else [])
  }

  // ---------------------------------------------------------------- linearizability

  /** Call k of the log returned exactly the value that it leaves in the word when the calls are performed one at a time
      in log order. */
  ghost predicate ReturnsInOrder<T>(expr: (T, T) -> T, init: T, log: seq<Commit<T>>, k: nat) {
    k < |log| && log[k].ret == Sequential(expr, init, Values(log[..k + 1]))
  }

  /** `log` is a sequential history of the object started at `init`. */
  ghost predicate SequentialHistory<T>(expr: (T, T) -> T, init: T, log: seq<Commit<T>>) {
    forall k: nat {:trigger ReturnsInOrder(expr, init, log, k)} :: k < |log| ==> ReturnsInOrder(expr, init, log, k)
  }

  /** Every thread's committed operands followed by its remaining ones are its program. */
  ghost predicate FollowsProgram<T>(prog: seq<seq<T>>, s: State<T>) {
    |s.threads| == |prog|
    && forall i {:trigger prog[i]} :: 0 <= i < |prog| ==> prog[i] == CommittedBy(s.log, i) + s.threads[i].todo
  }

  ghost predicate Linearized<T(!new)>(expr: (T, T) -> T, init: T, prog: seq<seq<T>>, s: State<T>) {
    && s.word == Sequential(expr, init, Values(s.log))
    && SequentialHistory(expr, init, s.log)
    && FollowsProgram(prog, s)
  }

  lemma CommitExtendsHistory<T(!new)>(expr: (T, T) -> T, init: T, log: seq<Commit<T>>, c: Commit<T>)
    requires SequentialHistory(expr, init, log)
    requires c.ret == expr(Sequential(expr, init, Values(log)), c.value)
    ensures SequentialHistory(expr, init, log + [c])
    ensures c.ret == Sequential(expr, init, Values(log + [c]))
  {
    var log' := log + [c];
    var vs := Values(log');
    assert vs[..|vs| - 1] == Values(log);
    forall k: nat | k < |log'|
      ensures ReturnsInOrder(expr, init, log', k)
    {
      if k < |log| {
        assert log'[..k + 1] == log[..k + 1];
        assert ReturnsInOrder(expr, init, log, k);
      } else {
        assert log'[..k + 1] == log';
      }
    }
  }

  lemma StepKeepsLinearized<T(!new)>(expr: (T, T) -> T, init: T, prog: seq<seq<T>>, s: State<T>, i: nat)
    requires Linearized(expr, init, prog, s) && Runnable(s, i)
    ensures Linearized(expr, init, prog, Step(expr, s, i))
  {
    StepFollowsProgram(expr, prog, s, i);
    var th := s.threads[i];
    if th.pc.AtCas? && th.pc.loaded == s.word {
      CommitExtendsHistory(expr, init, s.log, Commit(i, th.todo[0], expr(s.word, th.todo[0])));
    }
  }

  lemma StepFollowsProgram<T>(expr: (T, T) -> T, prog: seq<seq<T>>, s: State<T>, i: nat)
    requires FollowsProgram(prog, s) && Runnable(s, i)
    ensures FollowsProgram(prog, Step(expr, s, i))
  {
    var s', th := Step(expr, s, i), s.threads[i];
    forall j | 0 <= j < |prog|
      ensures prog[j] == CommittedBy(s'.log, j) + s'.threads[j].todo
    {
      assert prog[j] == CommittedBy(s.log, j) + s.threads[j].todo;
      if th.pc.AtCas? && th.pc.loaded == s.word {
        assert s'.log[..|s'.log| - 1] == s.log;
        assert th.todo == [th.todo[0]] + th.todo[1..];
      }
    }
  }

  lemma {:induction false} ExecKeepsLinearized<T(!new)>(
    expr: (T, T) -> T, init: T, prog: seq<seq<T>>, s: State<T>, sched: seq<nat>)
    requires Linearized(expr, init, prog, s) && Schedulable(expr, s, sched)
    ensures Linearized(expr, init, prog, Exec(expr, s, sched))
    decreases |sched|
  {
    if sched != [] {
      StepKeepsLinearized(expr, init, prog, s, sched[0]);
      ExecKeepsLinearized(expr, init, prog, Step(expr, s, sched[0]), sched[1..]);
    }
  }

  /** Every interleaving of every program is linearizable, in the order of the successful swaps, whether or not
      the word came back to an earlier value between a read and its swap. */
  lemma Linearizable<T(!new)>(expr: (T, T) -> T, init: T, prog: seq<seq<T>>, sched: seq<nat>)
    requires Schedulable(expr, Start(init, prog), sched)
    ensures Linearized(expr, init, prog, Exec(expr, Start(init, prog), sched))
  {
    ExecKeepsLinearized(expr, init, prog, Start(init, prog), sched);
  }

  lemma {:induction false} ExecSplit<T>(expr: (T, T) -> T, s: State<T>, first: seq<nat>, rest: seq<nat>)
    requires Schedulable(expr, s, first + rest)
    ensures Schedulable(expr, s, first)
    ensures Schedulable(expr, Exec(expr, s, first), rest)
    ensures Exec(expr, s, first + rest) == Exec(expr, Exec(expr, s, first), rest)
    decreases |first|
  {
    if first == [] {
      assert first + rest == rest;
    } else {
      assert (first + rest)[0] == first[0] && (first + rest)[1..] == first[1..] + rest;
      ExecSplit(expr, Step(expr, s, first[0]), first[1..], rest);
    }
  }

  lemma {:induction false} ExecJoin<T>(expr: (T, T) -> T, s: State<T>, first: seq<nat>, rest: seq<nat>)
    requires Schedulable(expr, s, first) && Schedulable(expr, Exec(expr, s, first), rest)
    ensures Schedulable(expr, s, first + rest)
    ensures Exec(expr, s, first + rest) == Exec(expr, Exec(expr, s, first), rest)
    decreases |first|
  {
    if first == [] {
      assert first + rest == rest;
    } else {
      assert (first + rest)[0] == first[0] && (first + rest)[1..] == first[1..] + rest;
      ExecJoin(expr, Step(expr, s, first[0]), first[1..], rest);
    }
  }

  lemma ExecOne<T>(expr: (T, T) -> T, s: State<T>, sched: seq<nat>, i: nat)
    requires Schedulable(expr, s, sched) && Runnable(Exec(expr, s, sched), i)
    ensures Schedulable(expr, s, sched + [i])
    ensures Exec(expr, s, sched + [i]) == Step(expr, Exec(expr, s, sched), i)
  {
    var s1 := Exec(expr, s, sched);
    assert [i][1..] == [];
    assert Schedulable(expr, s1, [i]) && Exec(expr, s1, [i]) == Step(expr, s1, i);
    ExecJoin(expr, s, sched, [i]);
  }

  lemma {:induction false} LogGrows<T>(expr: (T, T) -> T, s: State<T>, sched: seq<nat>)
    requires Schedulable(expr, s, sched)
    ensures s.log <= Exec(expr, s, sched).log
    decreases |sched|
  {
    if sched != [] {
      LogGrows(expr, Step(expr, s, sched[0]), sched[1..]);
    }
  }

  /** The linearization respects real time: the calls that returned during the first part of a schedule come,
      unchanged, before every call that returns later. */
  lemma RealTimeOrder<T>(expr: (T, T) -> T, s: State<T>, first: seq<nat>, rest: seq<nat>)
    requires Schedulable(expr, s, first + rest)
    ensures Schedulable(expr, s, first)
    ensures Exec(expr, s, first).log <= Exec(expr, s, first + rest).log
  {
    ExecSplit(expr, s, first, rest);
    LogGrows(expr, Exec(expr, s, first), rest);
  }

  // ---------------------------------------------------------------- lock freedom

  function Remaining<T>(ths: seq<Thread<T>>): (n: nat) {
    if ths == [] then 0 else |ths[0].todo| + Remaining(ths[1..])
  }

  /** Threads that have read the current word, so that their swap would succeed now. */
  function Live<T(==)>(ths: seq<Thread<T>>, word: T): (n: nat) {
    if ths == [] then 0
    else (if ths[0].pc.AtCas? && ths[0].pc.loaded == word then 1 else 0) + Live(ths[1..], word)
  }

  /** Threads that hold a value the word does not have any more, so that their swap would fail now. */
  function Stale<T(==)>(ths: seq<Thread<T>>, word: T): (n: nat) {
    if ths == [] then 0
    else (if ths[0].pc.AtCas? && ths[0].pc.loaded != word then 1 else 0) + Stale(ths[1..], word)
  }

  function Min(a: nat, b: nat): (m: nat)
    ensures m <= a && m <= b && (m == a || m == b)
  {
    if a < b then a else b
  }

  /** The most accesses that `n` threads can spend on `calls` calls in all. */
  function Budget(n: nat, calls: nat): (b: nat) {
    if calls == 0 then 0 else Budget(n, calls - 1) + 2 * Min(n, calls)
  }

  /** A thread is at its swap only while a call is in progress. */
  ghost predicate Busy<T>(ths: seq<Thread<T>>) {
    forall i {:trigger ths[i]} :: 0 <= i < |ths| && ths[i].pc.AtCas? ==> ths[i].todo != []
  }

  /** The potential: never negative, and every access, even a failed swap, takes at least one off it. */
  function Potential<T(==)>(s: State<T>): (p: int) {
    Budget(|s.threads|, Remaining(s.threads)) - Live(s.threads, s.word) + Stale(s.threads, s.word)
  }

  lemma {:induction false} LiveBounded<T>(ths: seq<Thread<T>>, word: T)
    requires Busy(ths)
    ensures Live(ths, word) <= Min(|ths|, Remaining(ths))
  {
    if ths != [] {
      assert forall i {:trigger ths[1..][i]} :: 0 <= i < |ths[1..]| ==> ths[1..][i] == ths[i + 1];
      assert Busy(ths[1..]);
      LiveBounded(ths[1..], word);
      assert ths[0].pc.AtCas? ==> ths[0].todo != [];
    }
  }

  /** What replacing one thread does to the counts, for an unchanged word. */
  lemma {:induction false} CountsAfterUpdate<T>(ths: seq<Thread<T>>, i: nat, th: Thread<T>, word: T)
    requires i < |ths|
    ensures Remaining(ths[i := th]) == Remaining(ths) - |ths[i].todo| + |th.todo|
    ensures Live(ths[i := th], word) == Live(ths, word) - Live([ths[i]], word) + Live([th], word)
    ensures Stale(ths[i := th], word) == Stale(ths, word) - Stale([ths[i]], word) + Stale([th], word)
  {
    var ths' := ths[i := th];
    if i == 0 {
      assert ths'[1..] == ths[1..];
    } else {
      assert ths'[1..] == ths[1..][i - 1 := th];
      CountsAfterUpdate(ths[1..], i - 1, th, word);
    }
  }

  /** Whatever the word becomes, the threads at their swap are the live and the stale ones. */
  lemma {:induction false} LivePlusStale<T>(ths: seq<Thread<T>>, word: T, word': T)
    ensures Live(ths, word) + Stale(ths, word) == Live(ths, word') + Stale(ths, word')
  {
    if ths != [] {
      LivePlusStale(ths[1..], word, word');
    }
  }

  lemma StepTakesPotential<T>(expr: (T, T) -> T, s: State<T>, i: nat)
    requires Busy(s.threads) && Runnable(s, i)
    ensures Busy(Step(expr, s, i).threads)
    ensures Potential(Step(expr, s, i)) < Potential(s)
  {
    var s' := Step(expr, s, i);
    var th := s.threads[i];
    CountsAfterUpdate(s.threads, i, s'.threads[i], s.word);
    if th.pc.AtCas? && th.pc.loaded == s.word {
      LivePlusStale(s'.threads, s.word, s'.word);
      LiveBounded(s.threads, s.word);
      assert Remaining(s'.threads) == Remaining(s.threads) - 1;
      assert Live([th], s.word) == 1 && Live([s'.threads[i]], s.word) == 0;
    }
  }

  lemma PotentialNonNegative<T>(s: State<T>)
    requires Busy(s.threads)
    ensures 0 <= Potential(s)
  {
    LiveBounded(s.threads, s.word);
  }

  lemma {:induction false} PotentialBoundsSchedule<T>(expr: (T, T) -> T, s: State<T>, sched: seq<nat>)
    requires Busy(s.threads) && Schedulable(expr, s, sched)
    ensures |sched| <= Potential(s)
    decreases |sched|
  {
    if sched == [] {
      PotentialNonNegative(s);
    } else {
      StepTakesPotential(expr, s, sched[0]);
      PotentialBoundsSchedule(expr, Step(expr, s, sched[0]), sched[1..]);
    }
  }

  function TotalCalls<T>(prog: seq<seq<T>>): (n: nat) {
    if prog == [] then 0 else |prog[0]| + TotalCalls(prog[1..])
  }

  lemma {:induction false} StartCounts<T>(init: T, prog: seq<seq<T>>)
    ensures Remaining(Start(init, prog).threads) == TotalCalls(prog)
    ensures Live(Start(init, prog).threads, init) == 0 && Stale(Start(init, prog).threads, init) == 0
  {
    if prog != [] {
      StartCounts(init, prog[1..]);
      assert Start(init, prog).threads[1..] == Start(init, prog[1..]).threads;
    }
  }

  /** Lock freedom with a bound: no schedule of any program is longer than the budget, so failed swaps cannot
      go on for ever and a schedule that cannot be extended has completed every call. */
  lemma BoundedAccesses<T>(expr: (T, T) -> T, init: T, prog: seq<seq<T>>, sched: seq<nat>)
    requires Schedulable(expr, Start(init, prog), sched)
    ensures |sched| <= Budget(|prog|, TotalCalls(prog))
  {
    StartCounts(init, prog);
    PotentialBoundsSchedule(expr, Start(init, prog), sched);
  }

  lemma {:induction false} BudgetClosedForm(n: nat, calls: nat)
    ensures calls <= n ==> Budget(n, calls) == calls * (calls + 1)
    ensures n <= calls ==> Budget(n, calls) == n * (2 * calls - n + 1)
  {
    if calls != 0 {
      BudgetClosedForm(n, calls - 1);
    }
  }

  /** `n` threads making one call each spend at most n(n+1) accesses. */
  lemma OneCallEach<T>(expr: (T, T) -> T, init: T, prog: seq<seq<T>>, sched: seq<nat>)
    requires forall i {:trigger prog[i]} :: 0 <= i < |prog| ==> |prog[i]| == 1
    requires Schedulable(expr, Start(init, prog), sched)
    ensures |sched| <= |prog| * (|prog| + 1)
  {
    SingletonCalls(prog);
    BudgetClosedForm(|prog|, |prog|);
    BoundedAccesses(expr, init, prog, sched);
  }

  lemma {:induction false} SingletonCalls<T>(prog: seq<seq<T>>)
    requires forall i {:trigger prog[i]} :: 0 <= i < |prog| ==> |prog[i]| == 1
    ensures TotalCalls(prog) == |prog|
  {
    if prog != [] {
      assert forall i {:trigger prog[1..][i]} :: 0 <= i < |prog[1..]| ==> prog[1..][i] == prog[i + 1];
      SingletonCalls(prog[1..]);
    }
  }

  ghost predicate Finished<T>(s: State<T>) {
    forall i: nat :: !Runnable(s, i)
  }

  /** When no thread is left to run, each thread has committed its program, call by call. */
  lemma FinishedCommitsAll<T(!new)>(expr: (T, T) -> T, init: T, prog: seq<seq<T>>, sched: seq<nat>)
    requires Schedulable(expr, Start(init, prog), sched)
    requires Finished(Exec(expr, Start(init, prog), sched))
    ensures forall i {:trigger prog[i]} :: 0 <= i < |prog| ==>
      CommittedBy(Exec(expr, Start(init, prog), sched).log, i) == prog[i]
  {
    Linearizable(expr, init, prog, sched);
    var s := Exec(expr, Start(init, prog), sched);
    forall i | 0 <= i < |prog|
      ensures CommittedBy(s.log, i) == prog[i]
    {
      assert !Runnable(s, i);
    }
  }

  /** Calls are neither lost nor duplicated: committed plus remaining is what the programs asked for. */
  lemma {:induction false} CallsConserved<T>(expr: (T, T) -> T, s: State<T>, sched: seq<nat>)
    requires Schedulable(expr, s, sched)
    ensures var s' := Exec(expr, s, sched);
      |s'.log| + Remaining(s'.threads) == |s.log| + Remaining(s.threads)
    decreases |sched|
  {
    if sched != [] {
      var s1 := Step(expr, s, sched[0]);
      CountsAfterUpdate(s.threads, sched[0], s1.threads[sched[0]], s.word);
      CallsConserved(expr, s1, sched[1..]);
    }
  }
}
