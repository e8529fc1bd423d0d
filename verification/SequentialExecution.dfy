/** What the ordering is for: every parallel run computes what the program computes when its tasks are executed one after
    the other in submission order. */
module SequentialExecution {
  import opened ImplicitDeps
  import opened HandleOrder
  import opened TaskGraph
  import opened Coverage
  import opened SequentialConsistency

  /** Accesses whose outcome may not depend on the order of tasks, under sequential consistency: no commutative writes and
      no reductions. Scratch buffers carry no value from one task to another. */
  ghost predicate Plain(prog: Program) {
    forall k, b {:trigger prog[k][b]} :: 0 <= k < |prog| && 0 <= b < |prog[k]| ==>
      prog[k][b].enabled && !Commutes(prog[k][b].mode) && !ReducesOnly(prog[k][b].mode)
  }

  ghost predicate Uses(accs: seq<Access>, h: nat, flag: Flag) {
    exists b {:trigger accs[b]} ::
      0 <= b < |accs| && accs[b].handle == h && Scratch !in accs[b].mode && flag in accs[b].mode
  }

  type Store<V> = map<nat, V>

  /** The values of the handles that the task reads. */
  ghost function Gather<V>(store: Store<V>, accs: seq<Access>): (inputs: Store<V>) {
    map h | h in store && Uses(accs, h, R) :: store[h]
  }

  /** What the kernel of task i writes, from its inputs alone. */
  ghost function Scatter<V>(
    store: Store<V>, accs: seq<Access>, kernel: (nat, Store<V>, nat) -> V, i: nat, inputs: Store<V>): (store': Store<V>)
    ensures store'.Keys == store.Keys
  {
    map h | h in store :: if Uses(accs, h, W) then kernel(i, inputs, h) else store[h]
  }

  /** The reference: the first n tasks executed one after the other. */
  ghost function InOrder<V>(prog: Program, kernel: (nat, Store<V>, nat) -> V, init: Store<V>, n: nat): (store: Store<V>)
    requires n <= |prog|
    ensures store.Keys == init.Keys
  {
    if n == 0 then init
    else
      var before := InOrder(prog, kernel, init, n - 1);
      Scatter(before, prog[n - 1], kernel, n - 1, Gather(before, prog[n - 1]))
  }

  // ---------------------------------------------------------------- the parallel execution

  datatype Execution<!V> = Execution(s: State, store: Store<V>, inputs: map<nat, Store<V>>)

  /** A task takes its inputs when it starts, and writes its results when it finishes. */
  ghost function Perform<V>(prog: Program, kernel: (nat, Store<V>, nat) -> V, x: Execution<V>, step: Step)
    : (x': Execution<V>)
    requires Enabled(prog, x.s, step)
  {
    var s' := Next(prog, x.s, step);
    match step
    case StartJob(Task(i)) =>
      if i < |prog| then Execution(s', x.store, x.inputs[i := Gather(x.store, prog[i])]) else x.(s := s')
    case FinishJob(Task(i)) =>
      if i < |prog| && i in x.inputs then x.(s := s', store := Scatter(x.store, prog[i], kernel, i, x.inputs[i]))
      else x.(s := s')
    case _ => x.(s := s')
  }

  ghost function Execute<V>(prog: Program, kernel: (nat, Store<V>, nat) -> V, x: Execution<V>, steps: seq<Step>)
    : (x': Execution<V>)
    requires Runs(prog, x.s, steps)
    decreases |steps|
  {
    if steps == [] then x else Execute(prog, kernel, Perform(prog, kernel, x, steps[0]), steps[1..])
  }

  // ---------------------------------------------------------------- order of reads and writes

  lemma PlainIsSafe(prog: Program)
    requires Plain(prog)
    ensures SafeProgram(prog)
  {
    forall k: nat | k < |prog|
      ensures SafeTask(prog[k])
    {
      forall b: nat | b < |prog[k]| && Wanted(prog[k], b)
        ensures CoveredAt(prog[k], b)
      {
        assert forall c {:trigger prog[k][c]} :: 0 <= c < |prog[k]| ==> prog[k][c].enabled;
        EnabledIsCovered(prog[k], b);
      }
      forall h: nat
        ensures !Hazard(TaskClasses(prog[k], |prog[k]|, h))
      {
        PlainClasses(prog, k, |prog[k]|, h);
      }
    }
  }

  lemma {:induction false} PlainClasses(prog: Program, k: nat, b: nat, h: nat)
    requires Plain(prog) && k < |prog| && b <= |prog[k]|
    ensures forall n {:trigger TaskClasses(prog[k], b, h)[n]} :: 0 <= n < |TaskClasses(prog[k], b, h)| ==>
      TaskClasses(prog[k], b, h)[n] in {Reading, Exclusive}
    decreases b
  {
    if b != 0 {
      PlainClasses(prog, k, b - 1, h);
      assert prog[k][b - 1].enabled;
      ClassByFlags(prog[k][b - 1].mode);
    }
  }

  /** A task that accesses a handle conflicts with one that writes it. */
  lemma WriterConflicts(prog: Program, i: nat, j: nat, h: nat, fi: Flag, fj: Flag) returns (bi: nat, bj: nat)
    requires Plain(prog) && i < |prog| && j < |prog| && Uses(prog[i], h, fi) && Uses(prog[j], h, fj)
    requires fi in {R, W} && fj in {R, W} && (fi == W || fj == W)
    ensures ConflictingAccesses(prog, i, bi, j, bj)
  {
    bi :| bi < |prog[i]| && prog[i][bi].handle == h && Scratch !in prog[i][bi].mode && fi in prog[i][bi].mode;
    bj :| bj < |prog[j]| && prog[j][bj].handle == h && Scratch !in prog[j][bj].mode && fj in prog[j][bj].mode;
    assert prog[i][bi].enabled && prog[j][bj].enabled;
  }

  lemma UsersInOrder(prog: Program, s: State, i: nat, j: nat, h: nat, fi: Flag, fj: Flag)
    requires Plain(prog) && Inv(prog, s) && WellFormed(prog, |s.handles|)
    requires i < j < |prog| && Uses(prog[i], h, fi) && Uses(prog[j], h, fj)
    requires fi in {R, W} && fj in {R, W} && (fi == W || fj == W) && Started(s, j)
    ensures Task(i) in s.done
  {
    var bi, bj := WriterConflicts(prog, i, j, h, fi, fj);
    PlainIsSafe(prog);
    assert SafeTask(prog[i]) && SafeTask(prog[j]);
    bi, bj := ConflictIsDetected(prog, i, bi, j, bj);
    InvOrders(prog, s, i, bi, j, bj);
  }

  // ---------------------------------------------------------------- the invariant

  /** Exactly the writers of h before task p have finished. */
  ghost predicate WrittenUpTo(prog: Program, done: set<Job>, h: nat, p: nat) {
    forall i: nat {:trigger Task(i)} :: i < |prog| && Uses(prog[i], h, W) ==> (i < p <==> Task(i) in done)
  }

  ghost predicate StoreAgrees<V>(
    prog: Program, kernel: (nat, Store<V>, nat) -> V, init: Store<V>, done: set<Job>, store: Store<V>, h: nat)
    requires h in init && h in store
  {
    forall p: nat {:trigger WrittenUpTo(prog, done, h, p)} :: p <= |prog| && WrittenUpTo(prog, done, h, p) ==>
      store[h] == InOrder(prog, kernel, init, p)[h]
  }

  ghost predicate Faithful<V>(prog: Program, kernel: (nat, Store<V>, nat) -> V, init: Store<V>, x: Execution<V>) {
    && Inv(prog, x.s) && x.store.Keys == init.Keys
    && (forall i: nat {:trigger Started(x.s, i)} :: Started(x.s, i) ==>
          i < |prog| && i in x.inputs && x.inputs[i] == Gather(InOrder(prog, kernel, init, i), prog[i]))
    && (forall h {:trigger h in init} :: h in init ==> StoreAgrees(prog, kernel, init, x.s.done, x.store, h))
  }

  lemma {:induction false} NotWritten<V>(
    prog: Program, kernel: (nat, Store<V>, nat) -> V, init: Store<V>, a: nat, p: nat, h: nat)
    requires a <= p <= |prog| && h in init
    requires forall i: nat {:trigger prog[i]} :: a <= i < p ==> !Uses(prog[i], h, W)
    ensures InOrder(prog, kernel, init, p)[h] == InOrder(prog, kernel, init, a)[h]
    decreases p
  {
    if a < p {
      assert !Uses(prog[p - 1], h, W);
      NotWritten(prog, kernel, init, a, p - 1, h);
    }
  }

  /** A task that starts finds the sequential values in everything it reads. */
  lemma StartReadsInOrder<V>(
    prog: Program, kernel: (nat, Store<V>, nat) -> V, init: Store<V>, x: Execution<V>, i: nat)
    requires Plain(prog) && WellFormed(prog, |x.s.handles|) && Faithful(prog, kernel, init, x)
    requires Enabled(prog, x.s, StartJob(Task(i))) && i < |prog| && Inv(prog, Next(prog, x.s, StartJob(Task(i))))
    ensures Gather(x.store, prog[i]) == Gather(InOrder(prog, kernel, init, i), prog[i])
  {
    var s, s' := x.s, Next(prog, x.s, StartJob(Task(i)));
    assert Started(s', i);
    forall h | h in x.store && Uses(prog[i], h, R)
      ensures x.store[h] == InOrder(prog, kernel, init, i)[h]
    {
      forall w: nat | w < |prog| && Uses(prog[w], h, W)
        ensures w < i <==> Task(w) in s.done
      {
        if w < i {
          UsersInOrder(prog, s', w, i, h, W, R);
        } else if i < w && Task(w) in s.done {
          assert Started(s, w);
          UsersInOrder(prog, s, i, w, h, R, W);
        }
      }
      assert WrittenUpTo(prog, s.done, h, i);
      assert StoreAgrees(prog, kernel, init, s.done, x.store, h);
    }
  }

  /** Between a task that is about to finish and any p up to which all writers will have finished, nobody writes. */
  lemma FinishedLast(prog: Program, s: State, i: nat, h: nat, p: nat, w: nat)
    requires Plain(prog) && WellFormed(prog, |s.handles|) && Inv(prog, s)
    requires Task(i) in s.running && i < p <= |prog| && i < w < p && Uses(prog[i], h, W)
    requires WrittenUpTo(prog, s.done + {Task(i)}, h, p)
    ensures !Uses(prog[w], h, W)
  {
    assert Task(i) !in s.done;
    if Uses(prog[w], h, W) {
      assert Task(w) in s.done + {Task(i)};
      assert Started(s, w);
      UsersInOrder(prog, s, i, w, h, W, W);
    }
  }

  /** A task that finishes writes the sequential values. */
  lemma FinishWritesInOrder<V>(
    prog: Program, kernel: (nat, Store<V>, nat) -> V, init: Store<V>, x: Execution<V>, i: nat, h: nat)
    requires Plain(prog) && WellFormed(prog, |x.s.handles|) && Faithful(prog, kernel, init, x)
    requires Enabled(prog, x.s, FinishJob(Task(i))) && h in init
    ensures var x' := Perform(prog, kernel, x, FinishJob(Task(i)));
      StoreAgrees(prog, kernel, init, x'.s.done, x'.store, h)
  {
    var s, x' := x.s, Perform(prog, kernel, x, FinishJob(Task(i)));
    assert Started(s, i) && Task(i) !in s.done;
    assert StoreAgrees(prog, kernel, init, s.done, x.store, h);
    forall p: nat | p <= |prog| && WrittenUpTo(prog, x'.s.done, h, p)
      ensures x'.store[h] == InOrder(prog, kernel, init, p)[h]
    {
      if Uses(prog[i], h, W) {
        assert Task(i) in x'.s.done && i < p;
        forall w: nat | i + 1 <= w < p
          ensures !Uses(prog[w], h, W)
        {
          FinishedLast(prog, s, i, h, p, w);
        }
        NotWritten(prog, kernel, init, i + 1, p, h);
      } else {
        NonWriterFinishes(prog, s.done, i, h, p);
      }
    }
  }

  lemma NonWriterFinishes(prog: Program, done: set<Job>, i: nat, h: nat, p: nat)
    requires i < |prog| && !Uses(prog[i], h, W) && WrittenUpTo(prog, done + {Task(i)}, h, p)
    ensures WrittenUpTo(prog, done, h, p)
  {
    forall w: nat | w < |prog| && Uses(prog[w], h, W)
      ensures w < p <==> Task(w) in done
    {
      assert w < p <==> Task(w) in done + {Task(i)};
    }
  }

  lemma PerformKeepsFaithful<V>(
    prog: Program, kernel: (nat, Store<V>, nat) -> V, init: Store<V>, x: Execution<V>, step: Step)
    requires Plain(prog) && WellFormed(prog, |x.s.handles|) && Faithful(prog, kernel, init, x)
    requires Enabled(prog, x.s, step)
    ensures Faithful(prog, kernel, init, Perform(prog, kernel, x, step))
  {
    var x' := Perform(prog, kernel, x, step);
    PlainIsSafe(prog);
    NextKeepsInv(prog, x.s, step);
    forall i: nat | Started(x'.s, i)
      ensures i < |prog| && i in x'.inputs && x'.inputs[i] == Gather(InOrder(prog, kernel, init, i), prog[i])
    {
      assert Launched(x'.s, Task(i));
      if !Started(x.s, i) {
        assert step == StartJob(Task(i));
        StartReadsInOrder(prog, kernel, init, x, i);
      }
    }
    forall h | h in init
      ensures StoreAgrees(prog, kernel, init, x'.s.done, x'.store, h)
    {
      assert StoreAgrees(prog, kernel, init, x.s.done, x.store, h);
      if step.FinishJob? {
        if step.job.Task? {
          FinishWritesInOrder(prog, kernel, init, x, step.job.k, h);
        } else {
          SyncWritesNothing(prog, kernel, init, x, step.job, h);
        }
      }
    }
  }

  lemma SyncWritesNothing<V>(
    prog: Program, kernel: (nat, Store<V>, nat) -> V, init: Store<V>, x: Execution<V>, sync: Job, h: nat)
    requires h in init && h in x.store && sync.SyncTask?
    requires StoreAgrees(prog, kernel, init, x.s.done, x.store, h)
    ensures StoreAgrees(prog, kernel, init, x.s.done + {sync}, x.store, h)
  {
    forall p: nat | p <= |prog| && WrittenUpTo(prog, x.s.done + {sync}, h, p)
      ensures x.store[h] == InOrder(prog, kernel, init, p)[h]
    {
      assert WrittenUpTo(prog, x.s.done, h, p) by {
        forall w: nat | w < |prog| && Uses(prog[w], h, W)
          ensures w < p <==> Task(w) in x.s.done
        {
          assert w < p <==> Task(w) in x.s.done + {sync};
        }
      }
    }
  }

  lemma {:induction false} ExecuteKeepsFaithful<V>(
    prog: Program, kernel: (nat, Store<V>, nat) -> V, init: Store<V>, x: Execution<V>, steps: seq<Step>)
    requires Plain(prog) && WellFormed(prog, |x.s.handles|) && Faithful(prog, kernel, init, x)
    requires Runs(prog, x.s, steps)
    ensures Faithful(prog, kernel, init, Execute(prog, kernel, x, steps))
    decreases |steps|
  {
    if steps != [] {
      PerformKeepsFaithful(prog, kernel, init, x, steps[0]);
      ExecuteKeepsFaithful(prog, kernel, init, Perform(prog, kernel, x, steps[0]), steps[1..]);
    }
  }

  ghost predicate AllFinished(prog: Program, s: State) {
    forall i: nat {:trigger Task(i)} :: i < |prog| ==> Task(i) in s.done
  }

  /** Sequential equivalence: for every program of reads and exclusive accesses, every kernel and every run, each task
      that has started took exactly the inputs of the sequential execution, and once all tasks have finished the data is
      exactly what the sequential execution leaves. */
  lemma ParallelIsSequential<V>(
    prog: Program, kernel: (nat, Store<V>, nat) -> V, init: Store<V>, handles: nat, steps: seq<Step>)
    requires Plain(prog) && WellFormed(prog, handles) && Runs(prog, Initial(handles), steps)
    ensures var x := Execute(prog, kernel, Execution(Initial(handles), init, map[]), steps);
      && (forall i: nat {:trigger Started(x.s, i)} :: Started(x.s, i) ==>
            i < |prog| && i in x.inputs && x.inputs[i] == Gather(InOrder(prog, kernel, init, i), prog[i]))
      && (AllFinished(prog, x.s) ==> x.store == InOrder(prog, kernel, init, |prog|))
  {
    var x0 := Execution(Initial(handles), init, map[]);
    InitialInv(prog, handles);
    forall h | h in init
      ensures StoreAgrees(prog, kernel, init, x0.s.done, x0.store, h)
    {
      forall p: nat | p <= |prog| && WrittenUpTo(prog, {}, h, p)
        ensures init[h] == InOrder(prog, kernel, init, p)[h]
      {
        forall w: nat | 0 <= w < p
          ensures !Uses(prog[w], h, W)
        {
          assert Task(w) !in x0.s.done;
        }
        NotWritten(prog, kernel, init, 0, p, h);
      }
    }
    ExecuteKeepsFaithful(prog, kernel, init, x0, steps);
    var x := Execute(prog, kernel, x0, steps);
    if AllFinished(prog, x.s) {
      forall h | h in init
        ensures x.store[h] == InOrder(prog, kernel, init, |prog|)[h]
      {
        assert WrittenUpTo(prog, x.s.done, h, |prog|);
        assert StoreAgrees(prog, kernel, init, x.s.done, x.store, h);
      }
    }
  }
}
