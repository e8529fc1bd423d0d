/** What executions compute, said without executing anything: every value comes from the last task before that writes the
    handle, or is the initial one. */
module DataFlow {
  import opened ImplicitDeps
  import opened TaskGraph
  import opened SequentialConsistency
  import opened SequentialExecution

  /** Some buffer of task i is handle h, not as scratch memory, and its mode has the flag. */
  ghost predicate Touches(prog: Program, i: nat, h: nat, flag: Flag) {
    i < |prog| && exists b: nat {:trigger prog[i][b]} ::
      b < |prog[i]| && prog[i][b].handle == h && flag in prog[i][b].mode && Scratch !in prog[i][b].mode
  }

  lemma TouchesIsUse(prog: Program, i: nat, h: nat, flag: Flag)
    requires i < |prog|
    ensures Touches(prog, i, h, flag) <==> Uses(prog[i], h, flag)
  {
  }

  /** Task w is the last one before task n that writes handle h. */
  ghost predicate LastWriter(prog: Program, h: nat, n: nat, w: nat) {
    && w < n <= |prog| && Touches(prog, w, h, W)
    && forall i: nat {:trigger Touches(prog, i, h, W)} :: w < i < n ==> !Touches(prog, i, h, W)
  }

  ghost predicate NoWriter(prog: Program, h: nat, n: nat) {
    n <= |prog| && forall i: nat {:trigger Touches(prog, i, h, W)} :: i < n ==> !Touches(prog, i, h, W)
  }

  lemma {:induction false} FindWriter(prog: Program, h: nat, n: nat) returns (w: nat)
    requires n <= |prog| && !NoWriter(prog, h, n)
    ensures LastWriter(prog, h, n, w)
  {
    w := n - 1;
    if !Touches(prog, w, h, W) {
      assert !NoWriter(prog, h, w);
      w := FindWriter(prog, h, w);
    }
  }

  /** The sequential execution, by its writers: a handle holds the initial value as long as nobody writes it, and then what
      the kernel of the last writer makes of the handles that this task reads, as they were before it. */
  lemma InOrderByWriters<V>(
    prog: Program, kernel: (nat, Store<V>, nat) -> V, init: Store<V>, n: nat, h: nat, w: nat)
    requires n <= |prog| && h in init
    ensures NoWriter(prog, h, n) ==> InOrder(prog, kernel, init, n)[h] == init[h]
    ensures LastWriter(prog, h, n, w) ==>
      var before := InOrder(prog, kernel, init, w);
      InOrder(prog, kernel, init, n)[h] == kernel(w, map g | g in init && Touches(prog, w, g, R) :: before[g], h)
  {
    forall i: nat | i < n
      ensures Touches(prog, i, h, W) <==> Uses(prog[i], h, W)
    {
      TouchesIsUse(prog, i, h, W);
    }
    if NoWriter(prog, h, n) {
      NotWritten(prog, kernel, init, 0, n, h);
    }
    if LastWriter(prog, h, n, w) {
      NotWritten(prog, kernel, init, w + 1, n, h);
      GatheredInputs(prog, kernel, init, w);
    }
  }

  lemma GatheredInputs<V>(prog: Program, kernel: (nat, Store<V>, nat) -> V, init: Store<V>, w: nat)
    requires w < |prog|
    ensures var before := InOrder(prog, kernel, init, w);
      Gather(before, prog[w]) == map g | g in init && Touches(prog, w, g, R) :: before[g]
  {
    forall g: nat
      ensures Touches(prog, w, g, R) <==> Uses(prog[w], g, R)
    {
      TouchesIsUse(prog, w, g, R);
    }
  }

  // ---------------------------------------------------------------- parallel runs

  /** The value is the initial one, or what the kernel of the last writer before task n made of the inputs it took. */
  ghost predicate Flows<V>(
    prog: Program, kernel: (nat, Store<V>, nat) -> V, init: Store<V>, inputs: map<nat, Store<V>>, h: nat, n: nat, v: V)
    requires h in init
  {
    || (NoWriter(prog, h, n) && v == init[h])
    || (exists w: nat {:trigger LastWriter(prog, h, n, w)} ::
          LastWriter(prog, h, n, w) && w in inputs && v == kernel(w, inputs[w], h))
  }

  lemma InOrderFlows<V>(
    prog: Program, kernel: (nat, Store<V>, nat) -> V, init: Store<V>, inputs: map<nat, Store<V>>, h: nat, n: nat)
    requires n <= |prog| && h in init
    requires forall w: nat {:trigger LastWriter(prog, h, n, w)} :: LastWriter(prog, h, n, w) ==>
      w in inputs && inputs[w] == Gather(InOrder(prog, kernel, init, w), prog[w])
    ensures Flows(prog, kernel, init, inputs, h, n, InOrder(prog, kernel, init, n)[h])
  {
    if NoWriter(prog, h, n) {
      InOrderByWriters(prog, kernel, init, n, h, 0);
    } else {
      var w := FindWriter(prog, h, n);
      InOrderByWriters(prog, kernel, init, n, h, w);
      GatheredInputs(prog, kernel, init, w);
    }
  }

  /** Task i took exactly the handles that it reads, each with the value that flows to it. */
  ghost predicate TookFlow<V>(
    prog: Program, kernel: (nat, Store<V>, nat) -> V, init: Store<V>, inputs: map<nat, Store<V>>, i: nat)
  {
    && i < |prog| && i in inputs && inputs[i].Keys == (set h | h in init && Touches(prog, i, h, R))
    && forall h {:trigger h in inputs[i]} :: h in inputs[i] ==> Flows(prog, kernel, init, inputs, h, i, inputs[i][h])
  }

  /** Every run of every program of reads and exclusive accesses is a data flow: each task that has started took, for each
      handle that it reads, what the last earlier writer made of the inputs that that one took; and once all tasks have
      finished, each handle holds what its last writer made. */
  lemma RunIsDataFlow<V>(
    prog: Program, kernel: (nat, Store<V>, nat) -> V, init: Store<V>, handles: nat, steps: seq<Step>)
    requires Plain(prog) && WellFormed(prog, handles) && Runs(prog, Initial(handles), steps)
    ensures var x := Execute(prog, kernel, Execution(Initial(handles), init, map[]), steps);
      && (forall i: nat {:trigger Started(x.s, i)} :: Started(x.s, i) ==> TookFlow(prog, kernel, init, x.inputs, i))
      && (AllFinished(prog, x.s) ==> x.store.Keys == init.Keys && forall h {:trigger h in init} :: h in init ==>
            Flows(prog, kernel, init, x.inputs, h, |prog|, x.store[h]))
  {
    var x := Execute(prog, kernel, Execution(Initial(handles), init, map[]), steps);
    ParallelIsSequential(prog, kernel, init, handles, steps);
    ExecuteState(prog, kernel, Execution(Initial(handles), init, map[]), steps);
    forall i: nat | Started(x.s, i)
      ensures TookFlow(prog, kernel, init, x.inputs, i)
    {
      GatheredInputs(prog, kernel, init, i);
      forall h | h in x.inputs[i]
        ensures Flows(prog, kernel, init, x.inputs, h, i, x.inputs[i][h])
      {
        forall w: nat | LastWriter(prog, h, i, w)
          ensures Started(x.s, w)
        {
          WriterFirst(prog, handles, steps, w, i, h);
        }
        InOrderFlows(prog, kernel, init, x.inputs, h, i);
      }
    }
    if AllFinished(prog, x.s) {
      forall h | h in init
        ensures Flows(prog, kernel, init, x.inputs, h, |prog|, x.store[h])
      {
        assert forall w: nat {:trigger LastWriter(prog, h, |prog|, w)} :: LastWriter(prog, h, |prog|, w) ==> Started(x.s, w);
        InOrderFlows(prog, kernel, init, x.inputs, h, |prog|);
      }
    }
  }

  lemma {:induction false} ExecuteState<V>(
    prog: Program, kernel: (nat, Store<V>, nat) -> V, x: Execution<V>, steps: seq<Step>)
    requires Runs(prog, x.s, steps)
    ensures Execute(prog, kernel, x, steps).s == After(prog, x.s, steps)
    decreases |steps|
  {
    if steps != [] {
      ExecuteState(prog, kernel, Perform(prog, kernel, x, steps[0]), steps[1..]);
    }
  }

  lemma WriterFirst(prog: Program, handles: nat, steps: seq<Step>, w: nat, i: nat, h: nat)
    requires Plain(prog) && WellFormed(prog, handles) && Runs(prog, Initial(handles), steps)
    requires LastWriter(prog, h, i, w) && i < |prog| && Touches(prog, i, h, R)
    requires Started(After(prog, Initial(handles), steps), i)
    ensures Started(After(prog, Initial(handles), steps), w)
  {
    PlainIsSafe(prog);
    TouchesIsUse(prog, w, h, W);
    TouchesIsUse(prog, i, h, R);
    var bw, bi := WriterConflicts(prog, w, i, h, W, R);
    ConflictsRunInSubmissionOrder(prog, handles, steps, w, bw, i, bi);
  }
}
