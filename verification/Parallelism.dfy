/** What the detection leaves parallel: two tasks can run at the same time exactly when no chain of conflicts leads from one
    to the other. */
module Parallelism {
  import opened ImplicitDeps
  import opened DepGraph
  import opened TaskGraph
  import opened GraphShape
  import opened SequentialConsistency
  import opened LostAccess
  import opened DepExact

  /** The two tasks run at the same time at the end of some run. */
  ghost predicate RunTogether(prog: Program, handles: nat, i: nat, j: nat) {
    exists steps {:trigger Runs(prog, Initial(handles), steps)} :: Runs(prog, Initial(handles), steps)
      && var s := After(prog, Initial(handles), steps); Task(i) in s.running && Task(j) in s.running
  }

  // ---------------------------------------------------------------- submitting everything

  /** Nothing has started yet. */
  ghost predicate Untouched(prog: Program, s: State) {
    ShapeInv(prog, s) && s.running == {} && s.done == {}
  }

  lemma {:induction false} SubmitBuffers(prog: Program, s0: State, steps: seq<Step>) returns (steps': seq<Step>)
    requires Runs(prog, s0, steps) && Untouched(prog, After(prog, s0, steps))
    requires WellFormed(prog, |After(prog, s0, steps).handles|) && After(prog, s0, steps).k < |prog|
    ensures Runs(prog, s0, steps') && Untouched(prog, After(prog, s0, steps'))
    ensures After(prog, s0, steps').k == After(prog, s0, steps).k + 1
    ensures |After(prog, s0, steps').handles| == |After(prog, s0, steps).handles|
    decreases |prog[After(prog, s0, steps).k]| - After(prog, s0, steps).b
  {
    var s := After(prog, s0, steps);
    var step := if s.b < |prog[s.k]| then Buffer else Submitted;
    if s.b < |prog[s.k]| {
      assert prog[s.k][s.b].handle < |s.handles|;
    }
    RunsOne(prog, s0, steps, step);
    NextKeepsShape(prog, s, step);
    steps' := steps + [step];
    if step == Buffer {
      steps' := SubmitBuffers(prog, s0, steps');
    }
  }

  lemma {:induction false} SubmitTasks(prog: Program, handles: nat, n: nat) returns (steps: seq<Step>)
    requires WellFormed(prog, handles) && n <= |prog|
    ensures Runs(prog, Initial(handles), steps)
    ensures var s := After(prog, Initial(handles), steps); Untouched(prog, s) && s.k == n && |s.handles| == handles
  {
    if n == 0 {
      steps := [];
      InitialShape(prog, handles);
    } else {
      var before := SubmitTasks(prog, handles, n - 1);
      steps := SubmitBuffers(prog, Initial(handles), before);
    }
  }

  // ---------------------------------------------------------------- running what two tasks wait for

  /** The unfinished jobs that one of two tasks waits for. */
  ghost predicate Awaited(s: State, i: nat, j: nat, x: Job) {
    && x !in s.done && x != Task(i) && x != Task(j)
    && (Before(s.edges, x, Task(i)) || Before(s.edges, x, Task(j)))
  }

  /** Everything is submitted, nothing runs, and neither task waits for the other. */
  ghost predicate Waiting(prog: Program, s: State, i: nat, j: nat) {
    && ShapeInv(prog, s) && s.running == {} && i < j < s.k && Task(i) !in s.done && Task(j) !in s.done
    && !Before(s.edges, Task(i), Task(j)) && !Before(s.edges, Task(j), Task(i))
  }

  /** The jobs that the edges lead from. */
  ghost function Sources(e: set<Edge>): (js: set<Job>) {
    set edge | edge in e :: edge.0
  }

  lemma {:induction false} BeforeIsSource(e: set<Edge>, x: Job, y: Job)
    requires Before(e, x, y) && x != y
    ensures x in Sources(e)
    decreases Rank(y)
  {
    var z :| (z, y) in e && Rank(z) < Rank(y) && Before(e, x, z);
    assert (z, y).0 in Sources(e);
    if z != x {
      BeforeIsSource(e, x, z);
    }
  }

  lemma {:induction false} BeforeRank(s: State, x: Job, y: Job)
    requires GraphInv(s) && Before(s.edges, x, y)
    ensures Rank(x) <= Rank(y)
    decreases Rank(y)
  {
    if x != y {
      var z :| (z, y) in s.edges && Rank(z) < Rank(y) && Before(s.edges, x, z);
      BeforeRank(s, x, z);
    }
  }

  lemma AwaitedBefore(prog: Program, s: State, i: nat, j: nat, x: Job, p: Job)
    requires Waiting(prog, s, i, j) && Awaited(s, i, j, x) && (p, x) in s.edges && p !in s.done
    ensures Awaited(s, i, j, p)
  {
    BeforeStep(s.edges, p, p, x);
    var t := if Before(s.edges, x, Task(i)) then Task(i) else Task(j);
    BeforeTrans(s.edges, p, x, t);
    BeforeRank(s, x, t);
  }

  /** Some awaited job has nothing unfinished before it. */
  lemma {:induction false} FirstAwaited(prog: Program, s: State, i: nat, j: nat, x: Job) returns (r: Job)
    requires Waiting(prog, s, i, j) && Awaited(s, i, j, x)
    ensures Awaited(s, i, j, r) && Ready(s, r)
    decreases Rank(x)
  {
    BeforeIsSource(s.edges, x, if Before(s.edges, x, Task(i)) then Task(i) else Task(j));
    var edge :| edge in s.edges && edge.0 == x;
    assert (edge.0, edge.1) in s.edges && Existing(s, x);
    if p :| (p, x) in s.edges && p !in s.done {
      AwaitedBefore(prog, s, i, j, x, p);
      r := FirstAwaited(prog, s, i, j, p);
    } else {
      NotBeingSubmitted(prog, s, i, j, x);
      r := x;
    }
  }

  /** Nothing submitted waits for the task that is being submitted. */
  lemma NotBeingSubmitted(prog: Program, s: State, i: nat, j: nat, x: Job)
    requires Waiting(prog, s, i, j) && Awaited(s, i, j, x)
    ensures x != Task(s.k)
  {
    if x == Task(s.k) {
      BeforeRank(s, x, if Before(s.edges, x, Task(i)) then Task(i) else Task(j));
    }
  }

  lemma RunJob(prog: Program, s0: State, steps: seq<Step>, r: Job) returns (steps': seq<Step>)
    requires Runs(prog, s0, steps) && ShapeInv(prog, After(prog, s0, steps)) && Ready(After(prog, s0, steps), r)
    requires After(prog, s0, steps).running == {}
    ensures Runs(prog, s0, steps') && ShapeInv(prog, After(prog, s0, steps'))
    ensures var s := After(prog, s0, steps); After(prog, s0, steps') == s.(done := s.done + {r})
  {
    var s := After(prog, s0, steps);
    RunsOne(prog, s0, steps, StartJob(r));
    NextKeepsShape(prog, s, StartJob(r));
    var s1 := Next(prog, s, StartJob(r));
    RunsOne(prog, s0, steps + [StartJob(r)], FinishJob(r));
    NextKeepsShape(prog, s1, FinishJob(r));
    steps' := steps + [StartJob(r)] + [FinishJob(r)];
  }

  lemma {:induction false} RunAwaited(prog: Program, s0: State, steps: seq<Step>, i: nat, j: nat)
    returns (steps': seq<Step>)
    requires Runs(prog, s0, steps) && Waiting(prog, After(prog, s0, steps), i, j)
    ensures Runs(prog, s0, steps') && Waiting(prog, After(prog, s0, steps'), i, j)
    ensures forall x :: !Awaited(After(prog, s0, steps'), i, j, x)
    decreases Sources(After(prog, s0, steps).edges) - After(prog, s0, steps).done
  {
    var s := After(prog, s0, steps);
    if x :| Awaited(s, i, j, x) {
      var r := FirstAwaited(prog, s, i, j, x);
      BeforeIsSource(s.edges, r, if Before(s.edges, r, Task(i)) then Task(i) else Task(j));
      var more := RunJob(prog, s0, steps, r);
      var s' := After(prog, s0, more);
      assert Sources(s'.edges) - s'.done == (Sources(s.edges) - s.done) - {r};
      steps' := RunAwaited(prog, s0, more, i, j);
    } else {
      steps' := steps;
    }
  }

  /** With nothing left to wait for, both can start. */
  lemma StartBoth(prog: Program, s0: State, steps: seq<Step>, i: nat, j: nat) returns (steps': seq<Step>)
    requires Runs(prog, s0, steps) && Waiting(prog, After(prog, s0, steps), i, j)
    requires forall x :: !Awaited(After(prog, s0, steps), i, j, x)
    ensures Runs(prog, s0, steps')
    ensures var s := After(prog, s0, steps'); Task(i) in s.running && Task(j) in s.running
  {
    var s := After(prog, s0, steps);
    forall p, t | (p, t) in s.edges && (t == Task(i) || t == Task(j))
      ensures p in s.done
    {
      BeforeStep(s.edges, p, p, t);
      assert !Awaited(s, i, j, p);
    }
    assert Ready(s, Task(i)) && Ready(s, Task(j));
    RunsOne(prog, s0, steps, StartJob(Task(i)));
    RunsOne(prog, s0, steps + [StartJob(Task(i))], StartJob(Task(j)));
    steps' := steps + [StartJob(Task(i))] + [StartJob(Task(j))];
  }

  // ---------------------------------------------------------------- the theorems

  /** Whatever the program: tasks without a chain of conflicts between them can run at the same time. */
  lemma IndependentTasksRunTogether(prog: Program, handles: nat, i: nat, j: nat)
    requires WellFormed(prog, handles) && i < j < |prog| && !MustFollow(prog, i, j)
    ensures RunTogether(prog, handles, i, j)
  {
    var s0 := Initial(handles);
    var steps := SubmitTasks(prog, handles, |prog|);
    var s := After(prog, s0, steps);
    if Before(s.edges, Task(i), Task(j)) {
      PathsFollowConflicts(prog, handles, steps, i, j);
    }
    if Before(s.edges, Task(j), Task(i)) {
      BeforeRank(s, Task(j), Task(i));
    }
    steps := RunAwaited(prog, s0, steps, i, j);
    steps := StartBoth(prog, s0, steps, i, j);
    assert Runs(prog, Initial(handles), steps);
  }

  /** In programs of safe tasks these are the only ones: two tasks can run at the same time if and only if no chain of
      conflicts, in submission order, leads from the one to the other. */
  lemma TogetherIsIndependent(prog: Program, handles: nat, i: nat, j: nat)
    requires WellFormed(prog, handles) && SafeProgram(prog) && i < j < |prog|
    ensures RunTogether(prog, handles, i, j) <==> !MustFollow(prog, i, j)
  {
    if !MustFollow(prog, i, j) {
      IndependentTasksRunTogether(prog, handles, i, j);
    } else if RunTogether(prog, handles, i, j) {
      var steps :| Runs(prog, Initial(handles), steps)
        && var s := After(prog, Initial(handles), steps); Task(i) in s.running && Task(j) in s.running;
      var s := After(prog, Initial(handles), steps);
      InitialShape(prog, handles);
      RunKeepsShape(prog, Initial(handles), steps);
      assert Launched(s, Task(j));
      GraphIsExact(prog, handles, steps, i, j);
      StartedPath(s, Task(i), Task(j));
    }
  }

  /** The promise about modes, on two tasks with one access each: they can run at the same time exactly when one of them
      uses the handle as scratch memory or their modes may overlap. */
  lemma TwoTasksOverlap(h: nat, handles: nat, m: Mode, m': Mode)
    requires h < handles
    ensures RunTogether([Single(h, m), Single(h, m')], handles, 0, 1) <==>
            Scratch in m || Scratch in m' || MayOverlap(m, m')
  {
    var prog := [Single(h, m), Single(h, m')];
    SingleIsSafe(h, m);
    SingleIsSafe(h, m');
    assert prog[0] == Single(h, m) && prog[1] == Single(h, m');
    TogetherIsIndependent(prog, handles, 0, 1);
    if Scratch !in m && Scratch !in m' && !MayOverlap(m, m') {
      assert ConflictingAccesses(prog, 0, 0, 1, 0);
      assert MustFollow(prog, 0, 0) && TasksConflict(prog, 0, 1);
    }
  }
}
