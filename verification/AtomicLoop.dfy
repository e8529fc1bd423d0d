/** The retry loop of STARPU_ATOMIC_SOMETHING as code on a shared word, among other threads that make any accesses in
    between. It is a run of the machine in AtomicRmw, so everything proved there holds of it. */
module AtomicLoop {
  import opened AtomicRmw

  /** What the other threads do around one iteration: before the read of `*ptr`, and between it and the swap. */
  datatype Round = Round(beforeRead: seq<nat>, beforeSwap: seq<nat>)

  lemma {:induction false} OthersLeaveThreadAlone<T>(expr: (T, T) -> T, s: State<T>, sched: seq<nat>, i: nat)
    requires Schedulable(expr, s, sched) && i !in sched && i < |s.threads|
    ensures |Exec(expr, s, sched).threads| == |s.threads| && Exec(expr, s, sched).threads[i] == s.threads[i]
    decreases |sched|
  {
    if sched != [] {
      OthersLeaveThreadAlone(expr, Step(expr, s, sched[0]), sched[1..], i);
    }
  }

  class SharedWord<T(==)> {
    var word: T
    var threads: seq<Thread<T>>
    var log: seq<Commit<T>>

    ghost function Machine(): (s: State<T>)
      reads this
    {
      State(word, threads, log)
    }

    constructor (init: T, prog: seq<seq<T>>)
      ensures Machine() == Start(init, prog)
    {
      word := init;
      threads := Start(init, prog).threads;
      log := [];
    }

    method CompareAndSwap(expected: T, next: T) returns (seen: T)
      modifies this`word
      ensures (seen, word) == CmpXchg(old(word), expected, next)
    {
      seen := word;
      if word == expected {
        word := next;
      }
    }

    /** The threads other than i make the accesses of this schedule, if they can. */
    method Interfere(expr: (T, T) -> T, i: nat, others: seq<nat>) returns (ghost taken: seq<nat>)
      requires i < |threads|
      modifies this
      ensures Schedulable(expr, old(Machine()), taken) && Machine() == Exec(expr, old(Machine()), taken)
      ensures |threads| == old(|threads|) && threads[i] == old(threads[i])
      ensures taken == [] || taken == others
    {
      taken := [];
      var s := State(word, threads, log);
      if i !in others && Schedulable(expr, s, others) {
        taken := others;
        OthersLeaveThreadAlone(expr, s, others, i);
        var s' := Exec(expr, s, others);
        word, threads, log := s'.word, s'.threads, s'.log;
      }
    }

    /** One call of the generated function by thread i, whose next operand is todo[0]. It ends within one iteration more
        than there are rounds of interference; what it did is a run of the machine that ends with the commit of this
        call; and the value returned is the one that the swap has just stored. */
    method ReadModifyWrite(expr: (T, T) -> T, i: nat, rounds: seq<Round>)
      returns (ret: T, iterations: nat, ghost sched: seq<nat>)
      requires i < |threads| && threads[i].pc == AtRead && threads[i].todo != []
      modifies this
      ensures Schedulable(expr, old(Machine()), sched) && Machine() == Exec(expr, old(Machine()), sched)
      ensures 1 <= iterations <= |rounds| + 1
      ensures log != [] && log[|log| - 1] == Commit(i, old(threads[i]).todo[0], ret) && word == ret
      ensures |threads| == old(|threads|) && threads[i] == Thread(AtRead, old(threads[i]).todo[1..])
    {
      ghost var s0 := Machine();
      var value, rest := threads[i].todo[0], threads[i].todo[1..];
      iterations := 0;
      sched := [];
      while true
        invariant Schedulable(expr, s0, sched) && Machine() == Exec(expr, s0, sched)
        invariant |threads| == |s0.threads| && threads[i] == s0.threads[i]
        invariant iterations <= |rounds|
        decreases |rounds| - iterations
      {
        var round := if iterations < |rounds| then rounds[iterations] else Round([], []);
        ghost var taken := Interfere(expr, i, round.beforeRead);
        ExecJoin(expr, s0, sched, taken);
        sched := sched + taken;

        var loaded := word;
        ExecOne(expr, s0, sched, i);
        sched := sched + [i];
        threads := threads[i := threads[i].(pc := AtCas(loaded))];

        taken := Interfere(expr, i, round.beforeSwap);
        ExecJoin(expr, s0, sched, taken);
        sched := sched + taken;

        ExecOne(expr, s0, sched, i);
        sched := sched + [i];
        assert iterations == |rounds| ==> taken == [] && word == loaded;
        var seen := CompareAndSwap(loaded, expr(loaded, value));
        iterations := iterations + 1;
        if seen == loaded {
          ret := expr(loaded, value);
          log := log + [Commit(i, value, ret)];
          threads := threads[i := Thread(AtRead, rest)];
          return;
        }
        threads := threads[i := threads[i].(pc := AtRead)];
      }
    }
  }
}
