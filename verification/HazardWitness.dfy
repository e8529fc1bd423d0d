/** The hazard is real: a task that has it can be put between two others so that the last one starts before it has
    finished, in spite of conflicting accesses. Together with lost accesses it is all that can go wrong: any other task is
    ordered in every program. */
module HazardWitness {
  import opened Wrappers
  import opened ImplicitDeps
  import opened HandleOrder
  import opened TaskGraph
  import opened AccessHistory
  import opened GraphShape
  import opened SequentialConsistency
  import opened LostAccess

  // ---------------------------------------------------------------- while the task is being submitted, as task 1

  /** Nothing waits for anything but task 0, except through task 1's own edges. */
  ghost predicate OnlyBehindFirst(e: set<Edge>) {
    forall x, y {:trigger (x, y) in e} :: (x, y) in e ==> y != Task(0) && (y.SyncTask? ==> x == Task(0))
  }

  /** How many entries at the end are of class c. */
  function TailRun(own: seq<Class>, c: Class): (n: nat) {
    if own == [] || own[|own| - 1] != c then 0 else 1 + TailRun(own[..|own| - 1], c)
  }

  /** Before the second shared class: the group that task 1 is in still holds its members. */
  ghost predicate Gathering(hs: HandleState, own: seq<Class>, c0: Class) {
    && (ClassOf(hs.lastMode) != Exclusive ==> TailRun(own, ClassOf(hs.lastMode)) <= OwnSlots(hs.accessors, 1))
    && (c0 != Exclusive && (forall j {:trigger own[j]} :: 0 <= j < |own| ==> own[j] == c0) ==>
          Slot(0, 0) in hs.accessors && ClassOf(hs.lastMode) == c0)
  }

  /** From the second shared class on: the last synchronization task ignores task 1. */
  ghost predicate Escaped(s: State, hs: HandleState, c: Class) {
    && hs.lastSync.Some? && hs.lastSync.value.SyncTask? && hs.lastSync.value in s.syncs
    && ClassOf(hs.lastMode) == c && c != Exclusive
  }

  ghost predicate Probe(prog: Program, s: State, h: nat, cs: seq<Class>, i: nat)
    requires 0 < i < |cs|
  {
    && ShapeInv(prog, s) && s.k == 1 && h < |s.handles| && s.running == {} && s.done == {}
    && OnlyBehindFirst(s.edges)
    && ProbeHandle(s, h, cs, i)
  }

  lemma GatherStep(e: set<Edge>, hs: HandleState, own: seq<Class>, c0: Class, b: nat, mode: Mode)
    requires Shaped(e, hs, own, 1) && Gathering(hs, own, c0)
    requires own == [] ==> ClassOf(mode) == c0
    ensures Gathering(Detect(hs, 1, b, mode).hs, own + [ClassOf(mode)], c0)
  {
    var c, own' := ClassOf(mode), own + [ClassOf(mode)];
    var hs' := Detect(hs, 1, b, mode).hs;
    ConcurrentByClass(mode, hs.lastMode);
    assert own'[..|own'| - 1] == own;
    if Concurrent(mode, hs.lastMode) {
      assert hs'.accessors[1..] == hs.accessors;
    } else if c != Exclusive {
      assert hs'.accessors == [Slot(1, b)];
    }
    if c0 != Exclusive && forall j {:trigger own'[j]} :: 0 <= j < |own'| ==> own'[j] == c0 {
      assert own'[|own|] == c0;
      assert forall j {:trigger own[j]} :: 0 <= j < |own| ==> own[j] == own'[j];
    }
  }

  /** At the second shared class there are at least two accessors, so a synchronization task is created. */
  lemma EscapeStep(e: set<Edge>, hs: HandleState, own: seq<Class>, cs: seq<Class>, i: nat, b: nat, mode: Mode)
    requires Shaped(e, hs, own, 1) && HazardAt(cs, i) && own == cs[..i] && Gathering(hs, own, cs[0])
    requires ClassOf(mode) == cs[i]
    ensures var o := Detect(hs, 1, b, mode);
      o.sync == Some(SyncTask(1, b)) && o.hs.lastSync == o.sync && o.hs.lastMode == mode
  {
    assert own[|own| - 1] == cs[i - 1] && ClassOf(hs.lastMode) == cs[i - 1];
    ConcurrentByClass(mode, hs.lastMode);
    OwnSlotsBounds(hs.accessors, 1);
    assert 1 <= TailRun(own, cs[i - 1]);
    if 2 <= i && cs[i - 2] == cs[i - 1] {
      var front := own[..|own| - 1];
      assert front[|front| - 1] == cs[i - 2];
      assert 2 <= TailRun(own, cs[i - 1]);
    } else {
      assert forall j {:trigger own[j]} :: 0 <= j < |own| ==> own[j] == cs[j];
      assert cs[0] == cs[i - 1];
      assert Slot(0, 0) in hs.accessors;
      TwoTasksTwoSlots(hs.accessors);
    }
  }

  lemma TwoTasksTwoSlots(xs: seq<Slot>)
    requires Slot(0, 0) in xs && 1 <= OwnSlots(xs, 1)
    ensures 2 <= |xs|
  {
    var n :| 0 <= n < |xs| && xs[n] == Slot(0, 0);
    OwnSlotsBounds(xs, 1);
    var y :| y in xs && y.k == 1;
  }

  lemma {:induction false} ClassesGrow(accs: seq<Access>, b: nat, b': nat, h: nat)
    requires b <= b' <= |accs|
    ensures TaskClasses(accs, b, h) <= TaskClasses(accs, b', h)
    decreases b'
  {
    if b < b' {
      ClassesGrow(accs, b, b' - 1, h);
    }
  }

  lemma SyncFromFirst(e: set<Edge>, hs: HandleState, cs: seq<Class>, b: nat, mode: Mode, x: Job, y: Job)
    requires Shaped(e, hs, cs, 1) && (x, y) in Detect(hs, 1, b, mode).edges
    ensures y == Task(1) || (y.SyncTask? && x == Task(0))
  {
    DetectEdges(hs, cs, e, 1, b, mode, x, y);
  }

  lemma ProbeEdges(prog: Program, s: State)
    requires |prog| == 3 && s.k == 1 && Enabled(prog, s, Buffer) && Processed(prog[1], s.b)
    requires OnlyBehindFirst(s.edges) && HandleShaped(s, prog[1][s.b].handle)
    ensures OnlyBehindFirst(Next(prog, s, Buffer).edges)
  {
    var acc, s' := prog[1][s.b], Next(prog, s, Buffer);
    forall x, y | (x, y) in s'.edges
      ensures y != Task(0) && (y.SyncTask? ==> x == Task(0))
    {
      if (x, y) !in s.edges {
        SyncFromFirst(s.edges, s.handles[acc.handle], OwnClasses(s.log[acc.handle], 1), s.b, Relevant(acc.mode), x, y);
      }
    }
  }

  /** What the probe says about the handle with the hazard. */
  ghost predicate ProbeHandle(s: State, h: nat, cs: seq<Class>, i: nat)
    requires 0 < i < |cs| && h < |s.handles| == |s.log|
  {
    var own := OwnClasses(s.log[h], 1);
    && own <= cs
    && (if |own| <= i then Gathering(s.handles[h], own, cs[0]) else Escaped(s, s.handles[h], cs[i]))
  }

  lemma AccessProbe(prog: Program, s: State, h: nat, cs: seq<Class>, i: nat)
    requires |prog| == 3 && s.k == 1 && Enabled(prog, s, Buffer) && Processed(prog[1], s.b) && prog[1][s.b].handle == h
    requires HazardAt(cs, i) && ProbeHandle(s, h, cs, i) && HandleShaped(s, h)
    requires OwnClasses(Next(prog, s, Buffer).log[h], 1) <= cs
    ensures ProbeHandle(Next(prog, s, Buffer), h, cs, i)
  {
    var s', own, hs, mode := Next(prog, s, Buffer), OwnClasses(s.log[h], 1), s.handles[h], Relevant(prog[1][s.b].mode);
    var own' := own + [ClassOf(mode)];
    OwnClassesAppend(s.log[h], Entry(1, s.b, mode));
    assert own' == OwnClasses(s'.log[h], 1) && cs[|own|] == own'[|own|];
    if |own| < i {
      GatherStep(s.edges, hs, own, cs[0], s.b, mode);
    } else if |own| == i {
      assert own == cs[..i];
      EscapeStep(s.edges, hs, own, cs, i, s.b, mode);
    } else {
      ConcurrentByClass(mode, hs.lastMode);
    }
  }

  lemma BufferProbe(prog: Program, s: State, h: nat, cs: seq<Class>, i: nat)
    requires |prog| == 3 && cs == TaskClasses(prog[1], |prog[1]|, h) && HazardAt(cs, i)
    requires Probe(prog, s, h, cs, i) && Enabled(prog, s, Buffer)
    ensures Probe(prog, Next(prog, s, Buffer), h, cs, i)
  {
    var s', acc := Next(prog, s, Buffer), prog[1][s.b];
    NextKeepsShape(prog, s, Buffer);
    assert HandleShaped(s, acc.handle) && HandleShaped(s, h);
    OwnAt(prog, s', h);
    ClassesGrow(prog[1], s'.b, |prog[1]|, h);
    if Processed(prog[1], s.b) {
      ProbeEdges(prog, s);
      if acc.handle == h {
        AccessProbe(prog, s, h, cs, i);
      }
    }
  }

  lemma OwnAt(prog: Program, s: State, h: nat)
    requires LogIsHistory(prog, s) && s.k < |prog| && h < |s.log|
    ensures OwnClasses(s.log[h], s.k) == TaskClasses(prog[s.k], s.b, h)
  {
    HistoryOwnClasses(prog, s.k, s.b, h);
  }

  /** Processing all remaining buffers of task 1. */
  lemma {:induction false} BuffersProbe(prog: Program, s0: State, steps: seq<Step>, h: nat, cs: seq<Class>, i: nat)
    returns (steps': seq<Step>)
    requires |prog| == 3 && cs == TaskClasses(prog[1], |prog[1]|, h) && HazardAt(cs, i)
    requires Runs(prog, s0, steps) && Probe(prog, After(prog, s0, steps), h, cs, i)
    requires WellFormed(prog, |After(prog, s0, steps).handles|)
    ensures Runs(prog, s0, steps') && Probe(prog, After(prog, s0, steps'), h, cs, i)
    ensures After(prog, s0, steps').b == |prog[1]|
    ensures |After(prog, s0, steps').handles| == |After(prog, s0, steps).handles|
    decreases |prog[1]| - After(prog, s0, steps).b
  {
    var s := After(prog, s0, steps);
    if s.b == |prog[1]| {
      steps' := steps;
    } else {
      assert prog[1][s.b].handle < |s.handles|;
      RunsOne(prog, s0, steps, Buffer);
      BufferProbe(prog, s, h, cs, i);
      steps' := BuffersProbe(prog, s0, steps + [Buffer], h, cs, i);
    }
  }

  // ---------------------------------------------------------------- the surrounding tasks

  /** Submitting task 0, a single access in the mode of the first access of task 1. */
  lemma OpenProbe(prog: Program, handles: nat, h: nat, mode: Mode, cs: seq<Class>, i: nat)
    requires |prog| == 3 && WellFormed(prog, handles) && h < handles
    requires prog[0] == Single(h, mode) && Scratch !in mode && 0 < i < |cs| && ClassOf(Relevant(mode)) == cs[0]
    ensures var steps := [Buffer, Submitted];
      && Runs(prog, Initial(handles), steps)
      && Probe(prog, After(prog, Initial(handles), steps), h, cs, i)
      && |After(prog, Initial(handles), steps).handles| == handles
  {
    var s0 := Initial(handles);
    InitialShape(prog, handles);
    var steps := [Buffer, Submitted];
    assert prog[0][0].handle < handles;
    assert !DupBefore(prog[0], 0);
    var s1 := Next(prog, s0, Buffer);
    var s2 := Next(prog, s1, Submitted);
    NextKeepsShape(prog, s0, Buffer);
    NextKeepsShape(prog, s1, Submitted);
    assert steps[1..] == [Submitted] && [Submitted][1..] == [];
    assert Runs(prog, s1, [Submitted]) && After(prog, s1, [Submitted]) == s2;
    assert Runs(prog, s0, steps) && After(prog, s0, steps) == s2;
    assert s1.edges == {};
    OwnAt(prog, s2, h);
    assert OwnClasses(s2.log[h], 1) == [];
    var hs := s2.handles[h];
    assert hs == Detect(FRESH_HANDLE, 0, 0, Relevant(mode)).hs;
    assert hs.accessors == [Slot(0, 0)] && hs.lastMode == Relevant(mode);
    assert Slot(0, 0) in hs.accessors;
  }

  lemma {:induction false} ClassBuffer(accs: seq<Access>, b: nat, h: nat, n: nat) returns (buf: nat)
    requires b <= |accs| && n < |TaskClasses(accs, b, h)|
    ensures buf < b && Processed(accs, buf) && accs[buf].handle == h
    ensures ClassOf(Relevant(accs[buf].mode)) == TaskClasses(accs, b, h)[n]
    decreases b
  {
    if n < |TaskClasses(accs, b - 1, h)| {
      buf := ClassBuffer(accs, b - 1, h, n);
    } else {
      buf := b - 1;
    }
  }

  /** Everything submitted, nothing started: task 2 waits only for a job that waits only for task 0. */
  ghost predicate Exposed(s: State, sync: Job) {
    && s.k == 3 && s.running == {} && s.done == {} && sync.SyncTask? && sync in s.syncs
    && forall x, y {:trigger (x, y) in s.edges} :: (x, y) in s.edges ==>
         y != Task(0) && (y == sync ==> x == Task(0)) && (y == Task(2) ==> x == sync)
  }

  /** Submitting task 2, a single access in the mode of the last access of task 1. */
  lemma CloseProbe(prog: Program, s0: State, steps: seq<Step>, h: nat, mode: Mode, cs: seq<Class>, i: nat)
    returns (steps': seq<Step>, sync: Job)
    requires |prog| == 3 && WellFormed(prog, |s0.handles|) && 0 < i < |cs| && prog[2] == Single(h, mode)
    requires Scratch !in mode && ClassOf(Relevant(mode)) == cs[i] && cs == TaskClasses(prog[1], |prog[1]|, h)
    requires Runs(prog, s0, steps) && Probe(prog, After(prog, s0, steps), h, cs, i)
    requires After(prog, s0, steps).b == |prog[1]| && |After(prog, s0, steps).handles| == |s0.handles|
    ensures Runs(prog, s0, steps') && Exposed(After(prog, s0, steps'), sync)
  {
    var s1 := After(prog, s0, steps);
    OwnAt(prog, s1, h);
    assert Escaped(s1, s1.handles[h], cs[i]);
    sync := s1.handles[h].lastSync.value;
    RunsOne(prog, s0, steps, Submitted);
    var s2 := Next(prog, s1, Submitted);
    assert prog[2][0].handle < |s2.handles|;
    assert !DupBefore(prog[2], 0);
    RunsOne(prog, s0, steps + [Submitted], Buffer);
    var s3 := Next(prog, s2, Buffer);
    RunsOne(prog, s0, steps + [Submitted] + [Buffer], Submitted);
    var s4 := Next(prog, s3, Submitted);
    steps' := steps + [Submitted] + [Buffer] + [Submitted];
    ConcurrentByClass(Relevant(mode), s1.handles[h].lastMode);
    assert s4.edges == s1.edges + {(sync, Task(2))};
    forall x, y | (x, y) in s4.edges
      ensures y != Task(0) && (y == sync ==> x == Task(0)) && (y == Task(2) ==> x == sync)
    {
      if (x, y) in s1.edges {
        assert Existing(s1, y);
      }
    }
  }

  /** From there, task 2 can start while task 1 has not. */
  lemma Overtake(prog: Program, s0: State, steps: seq<Step>, sync: Job) returns (steps': seq<Step>)
    requires Runs(prog, s0, steps) && Exposed(After(prog, s0, steps), sync)
    ensures Runs(prog, s0, steps')
    ensures var s := After(prog, s0, steps'); Task(2) in s.running && Task(1) !in s.done
  {
    var s := After(prog, s0, steps);
    RunsOne(prog, s0, steps, StartJob(Task(0)));
    var steps1 := steps + [StartJob(Task(0))];
    RunsOne(prog, s0, steps1, FinishJob(Task(0)));
    var steps2 := steps1 + [FinishJob(Task(0))];
    assert After(prog, s0, steps2) == s.(running := {}, done := {Task(0)});
    RunsOne(prog, s0, steps2, StartJob(sync));
    var steps3 := steps2 + [StartJob(sync)];
    RunsOne(prog, s0, steps3, FinishJob(sync));
    var steps4 := steps3 + [FinishJob(sync)];
    assert After(prog, s0, steps4) == s.(running := {}, done := {Task(0), sync});
    RunsOne(prog, s0, steps4, StartJob(Task(2)));
    steps' := steps4 + [StartJob(Task(2))];
  }

  lemma HazardRun(prog: Program, handles: nat, h: nat, m0: Mode, mn: Mode, i: nat) returns (steps: seq<Step>)
    requires |prog| == 3 && WellFormed(prog, handles) && h < handles
    requires prog[0] == Single(h, m0) && prog[2] == Single(h, mn) && Scratch !in m0 && Scratch !in mn
    requires var cs := TaskClasses(prog[1], |prog[1]|, h);
      HazardAt(cs, i) && ClassOf(Relevant(m0)) == cs[0] && ClassOf(Relevant(mn)) == cs[i]
    ensures Runs(prog, Initial(handles), steps)
    ensures var s := After(prog, Initial(handles), steps); Task(2) in s.running && Task(1) !in s.done
  {
    var cs, s0 := TaskClasses(prog[1], |prog[1]|, h), Initial(handles);
    OpenProbe(prog, handles, h, m0, cs, i);
    var steps1 := BuffersProbe(prog, s0, [Buffer, Submitted], h, cs, i);
    var steps2, sync := CloseProbe(prog, s0, steps1, h, mn, cs, i);
    steps := Overtake(prog, s0, steps2, sync);
  }

  lemma Sandwich(accs: seq<Access>, handles: nat, h: nat, m0: Mode, mn: Mode)
    requires WellFormed([accs], handles) && h < handles
    ensures WellFormed([Single(h, m0), accs, Single(h, mn)], handles)
  {
    var prog: Program := [Single(h, m0), accs, Single(h, mn)];
    forall k, b | 0 <= k < |prog| && 0 <= b < |prog[k]|
      ensures prog[k][b].handle < handles
    {
      if k == 1 {
        assert [accs][0][b].handle < handles;
      }
    }
  }

  lemma SandwichConflicts(accs: seq<Access>, h: nat, m0: Mode, mn: Mode, bi: nat)
    requires bi < |accs| && Processed(accs, bi) && accs[bi].handle == h && Scratch !in mn
    requires Conflict(Relevant(accs[bi].mode), Relevant(mn))
    ensures ConflictingAccesses([Single(h, m0), accs, Single(h, mn)], 1, bi, 2, 0)
  {
    var prog: Program := [Single(h, m0), accs, Single(h, mn)];
    assert prog[1] == accs && prog[2] == Single(h, mn);
    ConflictByFlags(accs[bi].mode, mn);
  }

  lemma PickBuffer(accs: seq<Access>, h: nat, cs: seq<Class>, n: nat) returns (buf: nat)
    requires cs == TaskClasses(accs, |accs|, h) && n < |cs|
    ensures buf < |accs| && Processed(accs, buf) && accs[buf].handle == h && AccessClass(accs[buf]) == cs[n]
  {
    buf := ClassBuffer(accs, |accs|, h, n);
  }

  /** The buffer that escapes, and modes for the tasks around it: one that joins its group, and one of the class in which
      it ends. */
  lemma HazardBuffers(accs: seq<Access>, handles: nat, h: nat, cs: seq<Class>, i: nat)
    returns (bi: nat, m0: Mode, mn: Mode)
    requires WellFormed([accs], handles) && cs == TaskClasses(accs, |accs|, h) && HazardAt(cs, i)
    ensures h < handles && bi < |accs| && Processed(accs, bi) && accs[bi].handle == h
    ensures Scratch !in m0 && Scratch !in mn && Conflict(Relevant(accs[bi].mode), Relevant(mn))
    ensures ClassOf(Relevant(m0)) == cs[0] && ClassOf(Relevant(mn)) == cs[i]
  {
    var b0 := PickBuffer(accs, h, cs, 0);
    bi := PickBuffer(accs, h, cs, i - 1);
    var bn := PickBuffer(accs, h, cs, i);
    m0, mn := accs[b0].mode, accs[bn].mode;
    assert [accs][0][b0].handle < handles;
  }

  /** Whatever task has the hazard on some handle: between two harmless tasks that access that handle once each, there
      is a run in which the last one starts before it has finished, although their accesses conflict. */
  lemma HazardBreaksOrder(accs: seq<Access>, handles: nat, h: nat)
    returns (first: seq<Access>, last: seq<Access>, steps: seq<Step>, bi: nat)
    requires WellFormed([accs], handles) && Hazard(TaskClasses(accs, |accs|, h))
    ensures SafeTask(first) && SafeTask(last) && WellFormed([first, accs, last], handles)
    ensures ConflictingAccesses([first, accs, last], 1, bi, 2, 0)
    ensures Runs([first, accs, last], Initial(handles), steps)
    ensures var s := After([first, accs, last], Initial(handles), steps); Started(s, 2) && Task(1) !in s.done
  {
    var cs := TaskClasses(accs, |accs|, h);
    var i: nat :| HazardAt(cs, i);
    var m0, mn;
    bi, m0, mn := HazardBuffers(accs, handles, h, cs, i);
    first, last := Single(h, m0), Single(h, mn);
    SingleIsSafe(h, m0);
    SingleIsSafe(h, mn);
    Sandwich(accs, handles, h, m0, mn);
    assert [first, accs, last][1] == accs;
    steps := HazardRun([first, accs, last], handles, h, m0, mn, i);
    SandwichConflicts(accs, h, m0, mn, bi);
  }

  /** Conflicting accesses are ordered in every run of the program. */
  ghost predicate OrderKept(prog: Program, handles: nat) {
    forall steps: seq<Step>, i: nat, bi: nat, j: nat, bj: nat
      {:trigger Runs(prog, Initial(handles), steps), ConflictingAccesses(prog, i, bi, j, bj)} ::
      Runs(prog, Initial(handles), steps) && i < j && ConflictingAccesses(prog, i, bi, j, bj) ==>
        var s := After(prog, Initial(handles), steps); Started(s, j) ==> Task(i) in s.done
  }

  ghost predicate OthersSafe(prog: Program, k: nat) {
    forall n: nat {:trigger prog[n]} :: n < |prog| && n != k ==> SafeTask(prog[n])
  }

  /** The order is kept in every program that holds this task among otherwise harmless ones. */
  ghost predicate OrderedEverywhere(accs: seq<Access>, handles: nat) {
    forall prog: Program, k: nat {:trigger OrderKept(prog, handles), prog[k]} ::
      WellFormed(prog, handles) && k < |prog| && prog[k] == accs && OthersSafe(prog, k) ==> OrderKept(prog, handles)
  }

  /** The exact condition: the accesses that a task wants ordered are ordered in every program exactly when it loses none
      of them and does not have the hazard. */
  lemma SafeTaskIsExact(accs: seq<Access>, handles: nat)
    requires WellFormed([accs], handles)
    ensures OrderedEverywhere(accs, handles) <==> SafeTask(accs)
  {
    if SafeTask(accs) {
      forall prog: Program, k: nat | WellFormed(prog, handles) && k < |prog| && prog[k] == accs && OthersSafe(prog, k)
        ensures OrderKept(prog, handles)
      {
        forall steps: seq<Step>, i: nat, bi: nat, j: nat, bj: nat |
          Runs(prog, Initial(handles), steps) && i < j && ConflictingAccesses(prog, i, bi, j, bj)
          ensures var s := After(prog, Initial(handles), steps); Started(s, j) ==> Task(i) in s.done
        {
          ConflictsRunInSubmissionOrder(prog, handles, steps, i, bi, j, bj);
        }
      }
    } else if Covered(accs) {
      var h: nat :| Hazard(TaskClasses(accs, |accs|, h));
      var first, last, steps, bi := HazardBreaksOrder(accs, handles, h);
      var prog := [first, accs, last];
      assert !OrderKept(prog, handles) by {
        assert Runs(prog, Initial(handles), steps) && ConflictingAccesses(prog, 1, bi, 2, 0);
      }
      assert prog[1] == accs;
    } else {
      var b: nat :| b < |accs| && Wanted(accs, b) && !CoveredAt(accs, b);
      var last, steps := LostAccessBreaksOrder(accs, handles, b);
      var prog := [accs, last];
      assert !OrderKept(prog, handles) by {
        assert Runs(prog, Initial(handles), steps) && ConflictingAccesses(prog, 0, b, 1, 0);
      }
      assert prog[0] == accs;
    }
  }

  /** The smallest instance: a task that brings a commutative contribution into a handle and also reads it. */
  lemma CommuteThenReadHasHazard(h: nat)
    ensures var accs := [Access(h, h, {W, Commute}, true), Access(h, h, {R}, true)];
      Hazard(TaskClasses(accs, |accs|, h)) && Covered(accs) && !SafeTask(accs)
  {
    var accs := [Access(h, h, {W, Commute}, true), Access(h, h, {R}, true)];
    assert !DupBefore(accs, 0) && !DupBefore(accs, 1);
    assert TaskClasses(accs, 0, h) == [];
    assert TaskClasses(accs, 1, h) == [Commuting];
    assert TaskClasses(accs, 2, h) == [Commuting, Reading];
    assert HazardAt([Commuting, Reading], 1);
    assert Processed(accs, 0) && Processed(accs, 1);
  }
}
