/** The law at the centre of the runtime: whatever the workers do, conflicting accesses happen in submission order. */
module SequentialConsistency {
  import opened Wrappers
  import opened ImplicitDeps
  import opened DepGraph
  import opened HandleOrder
  import opened TaskGraph
  import opened Coverage
  import opened AccessHistory
  import opened GraphShape

  /** Each access of a later task waits for each conflicting access of an earlier one that has not finished. */
  ghost predicate OrderedOn(e: set<Edge>, done: set<Job>, es: seq<Entry>) {
    forall p, q {:trigger p in es, q in es} :: p in es && q in es && p.k < q.k && Conflict(p.mode, q.mode) ==>
      Task(p.k) in done || Before(e, Task(p.k), Task(q.k))
  }

  ghost predicate HandleOk(s: State, h: nat)
    requires h < |s.handles| == |s.log|
  {
    && HandleInv(s.edges, s.done, s.handles[h], s.log[h], s.k)
    && OrderedOn(s.edges, s.done, s.log[h])
  }

  ghost predicate Inv(prog: Program, s: State) {
    ShapeInv(prog, s) && forall h: nat {:trigger HandleOk(s, h)} :: h < |s.handles| ==> HandleOk(s, h)
  }

  lemma InitialInv(prog: Program, handles: nat)
    ensures Inv(prog, Initial(handles))
  {
    var s := Initial(handles);
    InitialShape(prog, handles);
    forall h: nat | h < |s.handles|
      ensures HandleOk(s, h)
    {
      assert s.log[h] == [];
    }
  }

  lemma OrderedMonotone(e: set<Edge>, done: set<Job>, e': set<Edge>, done': set<Job>, es: seq<Entry>)
    requires e <= e' && done <= done' && OrderedOn(e, done, es)
    ensures OrderedOn(e', done', es)
  {
    forall p, q | p in es && q in es && p.k < q.k && Conflict(p.mode, q.mode)
      ensures Task(p.k) in done' || Before(e', Task(p.k), Task(q.k))
    {
      if Task(p.k) !in done {
        BeforeMonotone(e, e', Task(p.k), Task(q.k));
      }
    }
  }

  lemma OrderedAppend(e: set<Edge>, done: set<Job>, es: seq<Entry>, en: Entry)
    requires OrderedOn(e, done, es)
    requires forall n {:trigger es[n]} :: 0 <= n < |es| ==> es[n].k <= en.k
    requires forall n {:trigger es[n]} :: 0 <= n < |es| && es[n].k != en.k && Conflict(es[n].mode, en.mode) ==>
      Task(es[n].k) in done || Before(e, Task(es[n].k), Task(en.k))
    ensures OrderedOn(e, done, es + [en])
  {
    var es' := es + [en];
    forall p, q | p in es' && q in es' && p.k < q.k && Conflict(p.mode, q.mode)
      ensures Task(p.k) in done || Before(e, Task(p.k), Task(q.k))
    {
      assert p in es || p == en;
      assert q in es || q == en;
      assert p in es;
    }
  }

  lemma DetectOk(e: set<Edge>, done: set<Job>, hs: HandleState, es: seq<Entry>, en: Entry)
    requires HandleInv(e, done, hs, es, en.k) && OrderedOn(e, done, es)
    requires forall n {:trigger es[n]} :: 0 <= n < |es| ==> es[n].k <= en.k
    ensures var o := Detect(hs, en.k, en.b, en.mode);
      HandleInv(e + o.edges, done, o.hs, es + [en], en.k) && OrderedOn(e + o.edges, done, es + [en])
  {
    var o := Detect(hs, en.k, en.b, en.mode);
    DetectOrders(e, done, hs, es, en.k, en.b, en.mode);
    OrderedMonotone(e, done, e + o.edges, done, es);
    OrderedAppend(e + o.edges, done, es, en);
    assert en == Entry(en.k, en.b, en.mode);
  }

  lemma BufferKeepsHandle(prog: Program, s: State, h: nat)
    requires Enabled(prog, s, Buffer) && h < |s.handles| && HandleOk(s, h) && HandleShaped(s, h)
    ensures HandleOk(Next(prog, s, Buffer), h)
  {
    var s', acc := Next(prog, s, Buffer), prog[s.k][s.b];
    if Processed(prog[s.k], s.b) && acc.handle == h {
      DetectOk(s.edges, s.done, s.handles[h], s.log[h], Entry(s.k, s.b, Relevant(acc.mode)));
    } else {
      HandleInvMonotone(s.edges, s.done, s'.edges, s'.done, s.handles[h], s.log[h], s.k);
      OrderedMonotone(s.edges, s.done, s'.edges, s'.done, s.log[h]);
    }
  }

  lemma SubmittedKeepsHandle(prog: Program, s: State, h: nat)
    requires Enabled(prog, s, Submitted) && h < |s.handles| == |s.log| && HandleOk(s, h) && HandleShaped(s, h)
    requires !Hazard(OwnClasses(s.log[h], s.k))
    ensures HandleOk(Next(prog, s, Submitted), h)
  {
    SubmittedKeepsInv(s.edges, s.done, s.handles[h], s.log[h], s.k);
  }

  lemma SubmittedIsSafe(prog: Program, s: State, h: nat)
    requires SafeProgram(prog) && LogIsHistory(prog, s) && Enabled(prog, s, Submitted) && h < |s.log|
    ensures !Hazard(OwnClasses(s.log[h], s.k))
  {
    HistoryOwnClasses(prog, s.k, s.b, h);
    assert SafeTask(prog[s.k]);
    assert !Hazard(TaskClasses(prog[s.k], |prog[s.k]|, h));
  }

  lemma WorkerKeepsHandle(prog: Program, s: State, step: Step, h: nat)
    requires Enabled(prog, s, step) && (step.StartJob? || step.FinishJob?)
    requires h < |s.handles| == |s.log| && HandleOk(s, h)
    ensures HandleOk(Next(prog, s, step), h)
  {
    var s' := Next(prog, s, step);
    HandleInvMonotone(s.edges, s.done, s'.edges, s'.done, s.handles[h], s.log[h], s.k);
    OrderedMonotone(s.edges, s.done, s'.edges, s'.done, s.log[h]);
  }

  lemma ReleaseKeepsHandle(prog: Program, s: State, step: Step, h: nat)
    requires Enabled(prog, s, step) && (step.ReleaseTask? || step.ReleaseSync?)
    requires Settled(s.edges, s.done) && Task(s.k) !in s.done && h < |s.handles| == |s.log| && HandleOk(s, h)
    ensures HandleOk(Next(prog, s, step), h)
  {
    match step {
      case ReleaseTask(i, buf) =>
        ReleaseKeepsInv(s.edges, s.done, s.handles[h], s.log[h], s.k, Task(i), Some(Slot(i, buf)));
      case ReleaseSync(sync, handle) =>
        ReleaseKeepsInv(s.edges, s.done, s.handles[h], s.log[h], s.k, sync, None);
    }
  }

  lemma NextKeepsHandle(prog: Program, s: State, step: Step, h: nat)
    requires SafeProgram(prog) && LogIsHistory(prog, s) && GraphInv(s) && Enabled(prog, s, step)
    requires h < |s.handles| && HandleOk(s, h) && HandleShaped(s, h)
    ensures HandleOk(Next(prog, s, step), h)
  {
    match step {
      case Buffer => BufferKeepsHandle(prog, s, h);
      case Submitted =>
        SubmittedIsSafe(prog, s, h);
        SubmittedKeepsHandle(prog, s, h);
      case StartJob(_) => WorkerKeepsHandle(prog, s, step, h);
      case FinishJob(_) => WorkerKeepsHandle(prog, s, step, h);
      case ReleaseTask(_, _) =>
        GraphSettled(s);
        ReleaseKeepsHandle(prog, s, step, h);
      case ReleaseSync(_, _) =>
        GraphSettled(s);
        ReleaseKeepsHandle(prog, s, step, h);
    }
  }

  /** Every step keeps the invariant. */
  lemma NextKeepsInv(prog: Program, s: State, step: Step)
    requires SafeProgram(prog) && Inv(prog, s) && Enabled(prog, s, step)
    ensures Inv(prog, Next(prog, s, step))
  {
    NextKeepsShape(prog, s, step);
    var s' := Next(prog, s, step);
    forall h: nat | h < |s'.handles|
      ensures HandleOk(s', h)
    {
      assert HandleShaped(s, h);
      NextKeepsHandle(prog, s, step, h);
    }
  }

  lemma {:induction false} RunKeepsInv(prog: Program, s: State, steps: seq<Step>)
    requires SafeProgram(prog) && Inv(prog, s) && Runs(prog, s, steps)
    ensures Inv(prog, After(prog, s, steps))
    decreases |steps|
  {
    if steps != [] {
      NextKeepsInv(prog, s, steps[0]);
      RunKeepsInv(prog, Next(prog, s, steps[0]), steps[1..]);
    }
  }

  // ---------------------------------------------------------------- the law

  ghost predicate Started(s: State, i: nat) {
    Task(i) in s.running || Task(i) in s.done
  }

  /** Buffers bi of task i and bj of task j access one handle in modes that may not overlap, and the application wants
      both accesses to be ordered. */
  ghost predicate ConflictingAccesses(prog: Program, i: nat, bi: nat, j: nat, bj: nat) {
    && i < |prog| && j < |prog| && bi < |prog[i]| && bj < |prog[j]|
    && Wanted(prog[i], bi) && Wanted(prog[j], bj)
    && prog[i][bi].handle == prog[j][bj].handle
    && !MayOverlap(prog[i][bi].mode, prog[j][bj].mode)
  }

  /** The same, and the detection processes both. */
  ghost predicate DetectedConflict(prog: Program, i: nat, bi: nat, j: nat, bj: nat) {
    && ConflictingAccesses(prog, i, bi, j, bj)
    && Processed(prog[i], bi) && Processed(prog[j], bj)
  }

  /** Tasks that lose no access: what conflicts is detected, if not at these buffers. */
  lemma ConflictIsDetected(prog: Program, i: nat, bi: nat, j: nat, bj: nat) returns (pi: nat, pj: nat)
    requires ConflictingAccesses(prog, i, bi, j, bj) && Covered(prog[i]) && Covered(prog[j])
    ensures DetectedConflict(prog, i, pi, j, pj)
  {
    assert CoveredAt(prog[i], bi) && CoveredAt(prog[j], bj);
    ConflictByFlags(prog[i][bi].mode, prog[j][bj].mode);
    pi := CoverConflicts(prog[i], bi, Relevant(prog[j][bj].mode));
    pj := CoverConflicts(prog[j], bj, Relevant(prog[i][pi].mode));
    ConflictByFlags(prog[i][pi].mode, prog[j][pj].mode);
  }

  lemma {:induction false} StartedPath(s: State, x: Job, y: Job)
    requires GraphInv(s) && Before(s.edges, x, y) && (y in s.running || y in s.done) && x != y
    ensures x in s.done
  {
    var z :| (z, y) in s.edges && Rank(z) < Rank(y) && Before(s.edges, x, z);
    GraphSettled(s);
    SettledPath(s.edges, s.done, x, z);
  }

  lemma InvOrders(prog: Program, s: State, i: nat, bi: nat, j: nat, bj: nat)
    requires Inv(prog, s) && WellFormed(prog, |s.handles|)
    requires i < j && DetectedConflict(prog, i, bi, j, bj) && Started(s, j)
    ensures Task(i) in s.done
  {
    assert Launched(s, Task(j));
    var h := prog[i][bi].handle;
    var p, q := Entry(i, bi, Relevant(prog[i][bi].mode)), Entry(j, bj, Relevant(prog[j][bj].mode));
    HistoryEntries(prog, s.k, s.b, h, p);
    HistoryEntries(prog, s.k, s.b, h, q);
    ConflictByFlags(prog[i][bi].mode, prog[j][bj].mode);
    assert HandleOk(s, h);
    assert p in s.log[h] && q in s.log[h];
    if Task(i) !in s.done {
      StartedPath(s, Task(i), Task(j));
    }
  }

  /** Sequential consistency: in every run of every program of safe tasks, whatever order the workers pick, a task starts
      only after every earlier task with a conflicting access has finished. */
  lemma ConflictsRunInSubmissionOrder(
    prog: Program, handles: nat, steps: seq<Step>, i: nat, bi: nat, j: nat, bj: nat)
    requires WellFormed(prog, handles) && SafeProgram(prog) && Runs(prog, Initial(handles), steps)
    requires i < j && ConflictingAccesses(prog, i, bi, j, bj)
    ensures var s := After(prog, Initial(handles), steps);
      Started(s, j) ==> Task(i) in s.done
  {
    var s := After(prog, Initial(handles), steps);
    InitialInv(prog, handles);
    RunKeepsInv(prog, Initial(handles), steps);
    RunKeepsShape(prog, Initial(handles), steps);
    assert SafeTask(prog[i]) && SafeTask(prog[j]);
    var pi, pj := ConflictIsDetected(prog, i, bi, j, bj);
    if Started(s, j) {
      InvOrders(prog, s, i, pi, j, pj);
    }
  }

  /** Hence no two tasks with conflicting accesses to a handle ever run at the same time. */
  lemma NoConflictingTasksRunTogether(
    prog: Program, handles: nat, steps: seq<Step>, i: nat, bi: nat, j: nat, bj: nat)
    requires WellFormed(prog, handles) && SafeProgram(prog) && Runs(prog, Initial(handles), steps)
    requires i != j && ConflictingAccesses(prog, i, bi, j, bj)
    ensures var s := After(prog, Initial(handles), steps);
      !(Task(i) in s.running && Task(j) in s.running)
  {
    InitialInv(prog, handles);
    RunKeepsInv(prog, Initial(handles), steps);
    if i < j {
      ConflictsRunInSubmissionOrder(prog, handles, steps, i, bi, j, bj);
    } else {
      ConflictsRunInSubmissionOrder(prog, handles, steps, j, bj, i, bi);
    }
  }
}
