/** What every run keeps about the graph, for all programs. */
module GraphShape {
  import opened Wrappers
  import opened ImplicitDeps
  import opened DepGraph
  import opened HandleOrder
  import opened TaskGraph
  import opened AccessHistory

  /** Jobs that can have edges: those launched, and the task being submitted. */
  predicate Existing(s: State, job: Job) {
    Launched(s, job) || job == Task(s.k)
  }

  /** The shape of the graph, and what it means for a job to have started. */
  ghost predicate GraphInv(s: State) {
    && (forall x, y {:trigger (x, y) in s.edges} :: (x, y) in s.edges ==>
          Rank(x) < Rank(y) && Existing(s, x) && Existing(s, y) && (y in s.running || y in s.done ==> x in s.done))
    && s.running !! s.done
    && (forall j {:trigger Launched(s, j)} :: j in s.running || j in s.done ==> Launched(s, j))
    && (forall j {:trigger j in s.syncs} :: j in s.syncs ==> j.SyncTask? && (j.k < s.k || (j.k == s.k && j.b < s.b)))
    && (forall h {:trigger s.handles[h]} :: 0 <= h < |s.handles| && s.handles[h].lastSync.Some? ==>
          Existing(s, s.handles[h].lastSync.value))
  }

  ghost predicate HandleShaped(s: State, h: nat)
    requires h < |s.handles| == |s.log|
  {
    && Shaped(s.edges, s.handles[h], OwnClasses(s.log[h], s.k), s.k)
    && forall n {:trigger s.log[h][n]} :: 0 <= n < |s.log[h]| ==> s.log[h][n].k <= s.k
  }

  ghost predicate ShapeInv(prog: Program, s: State) {
    && LogIsHistory(prog, s) && GraphInv(s)
    && forall h: nat {:trigger HandleShaped(s, h)} :: h < |s.handles| ==> HandleShaped(s, h)
  }

  lemma InitialShape(prog: Program, handles: nat)
    ensures ShapeInv(prog, Initial(handles))
  {
    var s := Initial(handles);
    InitialLog(prog, handles);
    forall h: nat | h < |s.handles|
      ensures HandleShaped(s, h)
    {
      assert s.log[h] == [];
    }
  }

  /** The edges of one detection lead into the task being submitted, or into its new synchronization task. */
  lemma DetectEdges(hs: HandleState, cs: seq<Class>, e: set<Edge>, k: nat, b: nat, mode: Mode, x: Job, y: Job)
    requires Shaped(e, hs, cs, k) && (x, y) in Detect(hs, k, b, mode).edges
    ensures Rank(x) < Rank(y)
    ensures y == Task(k) || (y == SyncTask(k, b) && Detect(hs, k, b, mode).sync == Some(y))
    ensures (x.Task? && x.k <= k) || hs.lastSync == Some(x)
      || (x == SyncTask(k, b) && Detect(hs, k, b, mode).sync == Some(x))
  {
    if |hs.accessors| == 1 {
      assert hs.accessors[0] in hs.accessors;
    }
  }

  lemma DetectSync(hs: HandleState, cs: seq<Class>, e: set<Edge>, k: nat, b: nat, mode: Mode)
    requires Shaped(e, hs, cs, k)
    ensures var o := Detect(hs, k, b, mode);
      && (o.sync.Some? ==> o.sync.value == SyncTask(k, b))
      && (o.hs.lastSync.None? || o.hs.lastSync == hs.lastSync || o.hs.lastSync == o.sync
          || (o.hs.lastSync.value.Task? && o.hs.lastSync.value.k <= k))
  {
    if |hs.accessors| == 1 {
      assert hs.accessors[0] in hs.accessors;
    }
  }

  lemma BufferKeepsGraph(prog: Program, s: State)
    requires GraphInv(s) && Enabled(prog, s, Buffer) && HandleShaped(s, prog[s.k][s.b].handle)
    ensures GraphInv(Next(prog, s, Buffer))
  {
    var acc, s' := prog[s.k][s.b], Next(prog, s, Buffer);
    forall j | j in s'.running || j in s'.done
      ensures Launched(s', j)
    {
      assert Launched(s, j);
    }
    if Processed(prog[s.k], s.b) {
      var hs, mode := s.handles[acc.handle], Relevant(acc.mode);
      var o := Detect(hs, s.k, s.b, mode);
      var cs := OwnClasses(s.log[acc.handle], s.k);
      DetectSync(hs, cs, s.edges, s.k, s.b, mode);
      assert !Launched(s, Task(s.k));
      assert !Launched(s, SyncTask(s.k, s.b));
      forall x, y | (x, y) in s'.edges
        ensures Rank(x) < Rank(y) && Existing(s', x) && Existing(s', y)
        ensures y in s'.running || y in s'.done ==> x in s'.done
      {
        if (x, y) !in s.edges {
          DetectEdges(hs, cs, s.edges, s.k, s.b, mode, x, y);
        }
      }
    }
  }

  lemma OthersKeepGraph(prog: Program, s: State, step: Step)
    requires GraphInv(s) && Enabled(prog, s, step) && !step.Buffer?
    ensures GraphInv(Next(prog, s, step))
  {
    var s' := Next(prog, s, step);
    forall j | j in s'.running || j in s'.done
      ensures Launched(s', j)
    {
      assert Launched(s, j);
    }
  }

  lemma GraphSettled(s: State)
    requires GraphInv(s)
    ensures Settled(s.edges, s.done)
    ensures Task(s.k) !in s.done
  {
    assert !Launched(s, Task(s.k));
  }

  lemma NextKeepsHandleShaped(prog: Program, s: State, step: Step, h: nat)
    requires GraphInv(s) && Enabled(prog, s, step) && h < |s.handles| == |s.log| && HandleShaped(s, h)
    ensures HandleShaped(Next(prog, s, step), h)
  {
    var s', cs := Next(prog, s, step), OwnClasses(s.log[h], s.k);
    match step {
      case Buffer =>
        var acc := prog[s.k][s.b];
        var mode := Relevant(acc.mode);
        if Processed(prog[s.k], s.b) && acc.handle == h {
          ShapedDetect(s.edges, s.handles[h], cs, s.k, s.b, mode);
          OwnClassesAppend(s.log[h], Entry(s.k, s.b, mode));
        } else {
          ShapedMonotone(s.edges, s'.edges, s.handles[h], cs, s.k);
        }
      case Submitted =>
        ShapedNextTask(s.edges, s.handles[h], cs, s.k);
        NoOwnClasses(s.log[h], s.k + 1);
      case StartJob(_) =>
      case FinishJob(_) =>
      case ReleaseTask(i, buf) =>
        GraphSettled(s);
        ShapedRelease(s.edges, s.handles[h], cs, s.k, Task(i), Some(Slot(i, buf)));
      case ReleaseSync(sync, handle) =>
        ShapedRelease(s.edges, s.handles[h], cs, s.k, sync, None);
    }
  }

  lemma NextKeepsShape(prog: Program, s: State, step: Step)
    requires ShapeInv(prog, s) && Enabled(prog, s, step)
    ensures ShapeInv(prog, Next(prog, s, step))
  {
    var s' := Next(prog, s, step);
    NextKeepsLog(prog, s, step);
    if step.Buffer? {
      BufferKeepsGraph(prog, s);
    } else {
      OthersKeepGraph(prog, s, step);
    }
    forall h: nat | h < |s'.handles|
      ensures HandleShaped(s', h)
    {
      NextKeepsHandleShaped(prog, s, step, h);
    }
  }

  lemma {:induction false} RunKeepsShape(prog: Program, s: State, steps: seq<Step>)
    requires ShapeInv(prog, s) && Runs(prog, s, steps)
    ensures ShapeInv(prog, After(prog, s, steps))
    ensures |After(prog, s, steps).handles| == |s.handles|
    decreases |steps|
  {
    if steps != [] {
      NextKeepsShape(prog, s, steps[0]);
      RunKeepsShape(prog, Next(prog, s, steps[0]), steps[1..]);
    }
  }

  // ---------------------------------------------------------------- progress

  lemma {:induction false} FindReady(s: State, job: Job) returns (r: Job)
    requires GraphInv(s) && Launched(s, job) && job !in s.done && s.running == {}
    ensures Ready(s, r)
    decreases Rank(job)
  {
    if p :| (p, job) in s.edges && p !in s.done {
      assert Existing(s, p);
      assert p != Task(s.k);
      r := FindReady(s, p);
    } else {
      r := job;
    }
  }

  /** The graph never deadlocks, for any program: as long as a launched job has not finished, some job is running or can
      start. */
  lemma NeverStuck(prog: Program, handles: nat, steps: seq<Step>, job: Job)
    requires Runs(prog, Initial(handles), steps)
    requires var s := After(prog, Initial(handles), steps); Launched(s, job) && job !in s.done
    ensures var s := After(prog, Initial(handles), steps);
      s.running != {} || exists r :: Ready(s, r)
  {
    InitialShape(prog, handles);
    RunKeepsShape(prog, Initial(handles), steps);
    var s := After(prog, Initial(handles), steps);
    if s.running == {} {
      var r := FindReady(s, job);
    }
  }
}
