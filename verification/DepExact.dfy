/** The graph does not serialize more than it must: a path between two tasks always follows a chain of conflicts, and
    between submitted tasks that have not finished, paths are exactly those chains. */
module DepExact {
  import opened Wrappers
  import opened ImplicitDeps
  import opened DepGraph
  import opened HandleOrder
  import opened TaskGraph
  import opened AccessHistory
  import opened GraphShape
  import opened SequentialConsistency

  type Logs = seq<seq<Entry>>

  ghost predicate LogConflict(logs: Logs, i: nat, j: nat) {
    exists h: nat, p, q {:trigger p in logs[h], q in logs[h]} ::
      h < |logs| && p in logs[h] && q in logs[h] && p.k == i && q.k == j && Conflict(p.mode, q.mode)
  }

  /** Task j comes after task i through tasks that conflict one with the next. */
  ghost predicate Chained(logs: Logs, i: nat, j: nat)
    decreases j
  {
    i == j || exists m: nat {:trigger Chained(logs, i, m)} :: i <= m < j && LogConflict(logs, m, j) && Chained(logs, i, m)
  }

  lemma {:induction false} ChainedOrder(logs: Logs, i: nat, j: nat)
    requires Chained(logs, i, j)
    ensures i <= j
  {
  }

  lemma ChainStep(logs: Logs, i: nat, h: nat, p: Entry, q: Entry)
    requires h < |logs| && p in logs[h] && q in logs[h] && Conflict(p.mode, q.mode) && p.k <= q.k && Chained(logs, i, p.k)
    ensures Chained(logs, i, q.k)
  {
    ChainedOrder(logs, i, p.k);
    if p.k < q.k {
      assert LogConflict(logs, p.k, q.k);
    }
  }

  ghost predicate Extends(logs: Logs, logs': Logs) {
    |logs| == |logs'| && forall h: nat {:trigger logs[h]} :: h < |logs| ==> logs[h] <= logs'[h]
  }

  lemma {:induction false} ChainedMonotone(logs: Logs, logs': Logs, i: nat, j: nat)
    requires Extends(logs, logs') && Chained(logs, i, j)
    ensures Chained(logs', i, j)
    decreases j
  {
    if i != j {
      var m: nat :| i <= m < j && LogConflict(logs, m, j) && Chained(logs, i, m);
      ChainedMonotone(logs, logs', i, m);
      var h: nat, p, q :| h < |logs| && p in logs[h] && q in logs[h] && p.k == m && q.k == j && Conflict(p.mode, q.mode);
      assert logs[h] <= logs'[h];
      assert p in logs'[h] && q in logs'[h];
    }
  }

  // ---------------------------------------------------------------- the invariant

  /** Task i reaches an access to handle h that conflicts with mode m. */
  ghost predicate Justifies(logs: Logs, h: nat, i: nat, m: Mode)
    requires h < |logs|
  {
    exists w {:trigger w in logs[h]} :: w in logs[h] && Chained(logs, i, w.k) && Conflict(w.mode, m)
  }

  /** The last synchronization job stands for conflicting accesses only, the list for accesses of the current class. */
  ghost predicate Justified(e: set<Edge>, hs: HandleState, logs: Logs, h: nat)
    requires h < |logs|
  {
    && (forall i: nat {:trigger Task(i)} :: hs.lastSync.Some? && Before(e, Task(i), hs.lastSync.value) ==>
          Justifies(logs, h, i, hs.lastMode))
    && (forall x {:trigger x in hs.accessors} :: x in hs.accessors ==>
          exists p {:trigger p in logs[h]} :: p in logs[h] && p.k == x.k && ClassOf(p.mode) == ClassOf(hs.lastMode))
    && (if logs[h] == [] then hs.lastSync.None? && hs.accessors == []
        else logs[h][|logs[h]| - 1].mode == hs.lastMode)
    && (forall n {:trigger logs[h][n]} :: 0 <= n < |logs[h]| ==> logs[h][n].k <= logs[h][|logs[h]| - 1].k)
  }

  ghost predicate PathsJustified(e: set<Edge>, logs: Logs) {
    forall i: nat, j: nat {:trigger Before(e, Task(i), Task(j))} :: Before(e, Task(i), Task(j)) ==> Chained(logs, i, j)
  }

  /** No job waits for job t yet. */
  ghost predicate NoSuccessors(e: set<Edge>, t: Job) {
    forall x, y {:trigger (x, y) in e} :: (x, y) in e ==> x != t
  }

  /** Where new paths can come from: into the new synchronization task or into the task being submitted. */
  ghost predicate GrowsInto(e: set<Edge>, e': set<Edge>, k: nat, b: nat) {
    && e <= e' && NoSuccessors(e', Task(k)) && NoSuccessors(e, SyncTask(k, b))
    && (forall x, y {:trigger (x, y) in e'} :: (x, y) in e' && (x, y) !in e ==> y == Task(k) || y == SyncTask(k, b))
    && (forall x, y {:trigger (x, y) in e'} :: (x, y) in e' ==> x == SyncTask(k, b) ==> y == Task(k))
    && (forall x, y {:trigger (x, y) in e} :: (x, y) in e ==> y != SyncTask(k, b))
  }

  /** Old jobs keep their paths. */
  lemma {:induction false} OldPaths(e: set<Edge>, e': set<Edge>, k: nat, b: nat, x: Job, y: Job)
    requires GrowsInto(e, e', k, b) && y != Task(k) && y != SyncTask(k, b) && Before(e', x, y)
    ensures Before(e, x, y)
    decreases Rank(y)
  {
    if x != y {
      var z :| (z, y) in e' && Rank(z) < Rank(y) && Before(e', x, z);
      assert (z, y) in e;
      OldPaths(e, e', k, b, x, z);
    }
  }

  /** The setting of one detection on handle h. */
  ghost predicate Setting(e: set<Edge>, hs: HandleState, cs: seq<Class>, logs: Logs, h: nat, q: Entry) {
    && h < |logs| && Shaped(e, hs, cs, q.k) && Justified(e, hs, logs, h) && PathsJustified(e, logs)
    && (forall n {:trigger logs[h][n]} :: 0 <= n < |logs[h]| ==> logs[h][n].k <= q.k)
    && (hs.lastSync.Some? ==> hs.lastSync.value != SyncTask(q.k, q.b))
    && GrowsInto(e, e + Detect(hs, q.k, q.b, q.mode).edges, q.k, q.b)
  }

  function WithEntry(logs: Logs, h: nat, q: Entry): (logs': Logs)
    requires h < |logs|
  {
    logs[h := logs[h] + [q]]
  }

  lemma WithEntryExtends(logs: Logs, h: nat, q: Entry)
    requires h < |logs|
    ensures Extends(logs, WithEntry(logs, h, q)) && q in WithEntry(logs, h, q)[h]
  {
  }

  /** What justified waiting before the access justifies it for the access too, unless the access joined the group. */
  lemma JustifiesAccess(e: set<Edge>, hs: HandleState, cs: seq<Class>, logs: Logs, h: nat, q: Entry, i: nat)
    requires Setting(e, hs, cs, logs, h, q) && hs.lastSync.Some? && Before(e, Task(i), hs.lastSync.value)
    ensures Justifies(logs, h, i, q.mode)
  {
    var w :| w in logs[h] && Chained(logs, i, w.k) && Conflict(w.mode, hs.lastMode);
    ConcurrentByClass(q.mode, hs.lastMode);
    if !Concurrent(q.mode, hs.lastMode) {
      var l := logs[h][|logs[h]| - 1];
      assert l in logs[h] && w.k <= l.k;
      ChainStep(logs, i, h, w, l);
      assert Conflict(l.mode, q.mode);
    }
  }

  /** So does being in the list when the access does not join it. */
  lemma AccessorJustifies(
    e: set<Edge>, hs: HandleState, cs: seq<Class>, logs: Logs, h: nat, q: Entry, x: Slot, i: nat)
    requires Setting(e, hs, cs, logs, h, q) && x in hs.accessors && Before(e, Task(i), Task(x.k))
    requires !Concurrent(q.mode, hs.lastMode)
    ensures Justifies(logs, h, i, q.mode)
  {
    ConcurrentByClass(q.mode, hs.lastMode);
    var p :| p in logs[h] && p.k == x.k && ClassOf(p.mode) == ClassOf(hs.lastMode);
    assert Chained(logs, i, x.k);
  }

  lemma JustifiedChain(logs: Logs, h: nat, q: Entry, i: nat)
    requires h < |logs| && Justifies(logs, h, i, q.mode)
    requires forall n {:trigger logs[h][n]} :: 0 <= n < |logs[h]| ==> logs[h][n].k <= q.k
    ensures Chained(WithEntry(logs, h, q), i, q.k)
  {
    var logs' := WithEntry(logs, h, q);
    WithEntryExtends(logs, h, q);
    var w :| w in logs[h] && Chained(logs, i, w.k) && Conflict(w.mode, q.mode);
    ChainedMonotone(logs, logs', i, w.k);
    assert w in logs'[h];
    ChainStep(logs', i, h, w, q);
  }

  /** Where the predecessors of a new edge come from. */
  lemma NewEdge(e: set<Edge>, hs: HandleState, cs: seq<Class>, logs: Logs, h: nat, q: Entry, z: Job, t: Job, i: nat)
    requires Setting(e, hs, cs, logs, h, q)
    requires (z, t) in Detect(hs, q.k, q.b, q.mode).edges && z != SyncTask(q.k, q.b)
    requires Before(e + Detect(hs, q.k, q.b, q.mode).edges, Task(i), z)
    ensures Justifies(logs, h, i, q.mode)
  {
    var o := Detect(hs, q.k, q.b, q.mode);
    assert z != Task(q.k);
    OldPaths(e, e + o.edges, q.k, q.b, Task(i), z);
    if hs.lastSync == Some(z) {
      JustifiesAccess(e, hs, cs, logs, h, q, i);
    } else {
      assert !Concurrent(q.mode, hs.lastMode);
      assert exists x :: x in hs.accessors && z == Task(x.k) by {
        if |hs.accessors| == 1 {
          assert hs.accessors[0] in hs.accessors;
        }
      }
      var x :| x in hs.accessors && z == Task(x.k);
      AccessorJustifies(e, hs, cs, logs, h, q, x, i);
    }
  }

  /** Paths into the new synchronization task. */
  lemma PathsToSync(e: set<Edge>, hs: HandleState, cs: seq<Class>, logs: Logs, h: nat, q: Entry, i: nat)
    requires Setting(e, hs, cs, logs, h, q)
    requires Before(e + Detect(hs, q.k, q.b, q.mode).edges, Task(i), SyncTask(q.k, q.b))
    ensures Justifies(logs, h, i, q.mode)
  {
    var o := Detect(hs, q.k, q.b, q.mode);
    var z :| (z, SyncTask(q.k, q.b)) in e + o.edges && Before(e + o.edges, Task(i), z);
    NewEdge(e, hs, cs, logs, h, q, z, SyncTask(q.k, q.b), i);
  }

  /** Every path after the detection follows a chain of conflicts. */
  lemma DetectJustifiesPaths(e: set<Edge>, hs: HandleState, cs: seq<Class>, logs: Logs, h: nat, q: Entry)
    requires Setting(e, hs, cs, logs, h, q)
    ensures PathsJustified(e + Detect(hs, q.k, q.b, q.mode).edges, WithEntry(logs, h, q))
  {
    var o, logs', s := Detect(hs, q.k, q.b, q.mode), WithEntry(logs, h, q), SyncTask(q.k, q.b);
    var e' := e + o.edges;
    WithEntryExtends(logs, h, q);
    forall i: nat, j: nat | Before(e', Task(i), Task(j))
      ensures Chained(logs', i, j)
    {
      if j != q.k {
        OldPaths(e, e', q.k, q.b, Task(i), Task(j));
        ChainedMonotone(logs, logs', i, j);
      } else if i != j {
        var z :| (z, Task(j)) in e' && Rank(z) < Rank(Task(j)) && Before(e', Task(i), z);
        if (z, Task(j)) in e {
          OldPaths(e, e', q.k, q.b, Task(i), z);
          BeforeStep(e, Task(i), z, Task(j));
          ChainedMonotone(logs, logs', i, j);
        } else {
          if z == s {
            PathsToSync(e, hs, cs, logs, h, q, i);
          } else {
            NewEdge(e, hs, cs, logs, h, q, z, Task(j), i);
          }
          JustifiedChain(logs, h, q, i);
        }
      }
    }
  }

  lemma JustifiesMonotone(logs: Logs, logs': Logs, h: nat, i: nat, m: Mode)
    requires Extends(logs, logs') && h < |logs| && Justifies(logs, h, i, m)
    ensures Justifies(logs', h, i, m)
  {
    var w :| w in logs[h] && Chained(logs, i, w.k) && Conflict(w.mode, m);
    ChainedMonotone(logs, logs', i, w.k);
    assert logs[h] <= logs'[h];
    assert w in logs'[h];
  }

  /** What the last synchronization job stands for after the detection. */
  lemma DetectJustifiesSync(e: set<Edge>, hs: HandleState, cs: seq<Class>, logs: Logs, h: nat, q: Entry, i: nat)
    requires Setting(e, hs, cs, logs, h, q)
    requires var o := Detect(hs, q.k, q.b, q.mode);
      o.hs.lastSync.Some? && Before(e + o.edges, Task(i), o.hs.lastSync.value)
    ensures Justifies(WithEntry(logs, h, q), h, i, q.mode)
  {
    var o, logs' := Detect(hs, q.k, q.b, q.mode), WithEntry(logs, h, q);
    var e', s := e + o.edges, o.hs.lastSync.value;
    WithEntryExtends(logs, h, q);
    if s == SyncTask(q.k, q.b) {
      PathsToSync(e, hs, cs, logs, h, q, i);
      JustifiesMonotone(logs, logs', h, i, q.mode);
    } else if s == Task(q.k) {
      DetectJustifiesPaths(e, hs, cs, logs, h, q);
      assert Chained(logs', i, q.k);
      if hs.lastSync == Some(s) {
        JustifiesAccess(e, hs, cs, logs, h, q, q.k);
        SelfJustified(logs, h, q, i);
      } else if |hs.accessors| >= 2 {
        assert Conflict(q.mode, q.mode);
      } else {
        var x := hs.accessors[0];
        assert x in hs.accessors && x.k == q.k;
        AccessorJustifies(e, hs, cs, logs, h, q, x, q.k);
        SelfJustified(logs, h, q, i);
      }
    } else {
      OldPaths(e, e', q.k, q.b, Task(i), s);
      if hs.lastSync == Some(s) {
        JustifiesAccess(e, hs, cs, logs, h, q, i);
      } else {
        var x := hs.accessors[0];
        assert x in hs.accessors && s == Task(x.k);
        AccessorJustifies(e, hs, cs, logs, h, q, x, i);
      }
      JustifiesMonotone(logs, logs', h, i, q.mode);
    }
  }

  /** If task q.k itself justifies waiting, so does everything chained before it. */
  lemma SelfJustified(logs: Logs, h: nat, q: Entry, i: nat)
    requires h < |logs| && Justifies(logs, h, q.k, q.mode) && Chained(WithEntry(logs, h, q), i, q.k)
    requires forall n {:trigger logs[h][n]} :: 0 <= n < |logs[h]| ==> logs[h][n].k <= q.k
    ensures Justifies(WithEntry(logs, h, q), h, i, q.mode)
  {
    var w :| w in logs[h] && Chained(logs, q.k, w.k) && Conflict(w.mode, q.mode);
    ChainedOrder(logs, q.k, w.k);
    assert w.k == q.k && w in WithEntry(logs, h, q)[h];
  }

  lemma DetectJustifiesHandle(e: set<Edge>, hs: HandleState, cs: seq<Class>, logs: Logs, h: nat, q: Entry)
    requires Setting(e, hs, cs, logs, h, q)
    ensures var o := Detect(hs, q.k, q.b, q.mode);
      Justified(e + o.edges, o.hs, WithEntry(logs, h, q), h)
  {
    var o, logs' := Detect(hs, q.k, q.b, q.mode), WithEntry(logs, h, q);
    ConcurrentByClass(q.mode, hs.lastMode);
    assert o.hs.lastMode == q.mode;
    forall i: nat | o.hs.lastSync.Some? && Before(e + o.edges, Task(i), o.hs.lastSync.value)
      ensures Justifies(logs', h, i, o.hs.lastMode)
    {
      DetectJustifiesSync(e, hs, cs, logs, h, q, i);
    }
    assert q in logs'[h];
    forall x | x in o.hs.accessors
      ensures exists p: Entry {:trigger p in logs'[h]} :: p in logs'[h] && p.k == x.k && ClassOf(p.mode) == ClassOf(q.mode)
    {
      if x in hs.accessors && Concurrent(q.mode, hs.lastMode) {
        var p :| p in logs[h] && p.k == x.k && ClassOf(p.mode) == ClassOf(hs.lastMode);
        assert p in logs'[h];
      } else {
        assert x == Slot(q.k, q.b);
      }
    }
  }

  // ---------------------------------------------------------------- whole runs

  ghost predicate ExactInv(prog: Program, s: State) {
    && ShapeInv(prog, s) && PathsJustified(s.edges, s.log)
    && forall h: nat {:trigger Justified(s.edges, s.handles[h], s.log, h)} :: h < |s.handles| ==>
         Justified(s.edges, s.handles[h], s.log, h)
  }

  lemma InitialExact(prog: Program, handles: nat)
    ensures ExactInv(prog, Initial(handles))
  {
    InitialShape(prog, handles);
    var s := Initial(handles);
    forall i: nat, j: nat | Before(s.edges, Task(i), Task(j))
      ensures i == j
    {
    }
  }

  lemma ExistingRank(s: State, j: Job)
    requires GraphInv(s) && Existing(s, j)
    ensures Rank(j) <= Rank(Task(s.k))
  {
  }

  /** The edges of a detection are new paths only into the jobs that did not exist before. */
  lemma BufferSetting(prog: Program, s: State)
    requires ExactInv(prog, s) && Enabled(prog, s, Buffer)
    ensures var acc := prog[s.k][s.b];
      Setting(s.edges, s.handles[acc.handle], OwnClasses(s.log[acc.handle], s.k), s.log, acc.handle,
              Entry(s.k, s.b, Relevant(acc.mode)))
  {
    var acc := prog[s.k][s.b];
    var h, mode := acc.handle, Relevant(acc.mode);
    var hs, cs := s.handles[h], OwnClasses(s.log[h], s.k);
    var o := Detect(hs, s.k, s.b, mode);
    var e', sync := s.edges + o.edges, SyncTask(s.k, s.b);
    assert HandleShaped(s, h) && Justified(s.edges, hs, s.log, h);
    assert !Existing(s, sync);
    forall x, y | (x, y) in e'
      ensures x != Task(s.k) && (x == sync ==> y == Task(s.k)) && ((x, y) in s.edges ==> x != sync && y != sync)
      ensures (x, y) !in s.edges ==> y == Task(s.k) || y == sync
    {
      if (x, y) in s.edges {
        ExistingRank(s, y);
      } else {
        DetectEdges(hs, cs, s.edges, s.k, s.b, mode, x, y);
      }
    }
  }

  /** The other handles: what they stand for is still justified, also when they stand for the task being submitted. */
  lemma OtherHandleJustified(prog: Program, s: State, h: nat)
    requires ExactInv(prog, s) && Enabled(prog, s, Buffer) && Processed(prog[s.k], s.b)
    requires h < |s.handles| && prog[s.k][s.b].handle != h
    requires var s' := Next(prog, s, Buffer); PathsJustified(s'.edges, s'.log)
    ensures var s' := Next(prog, s, Buffer); Justified(s'.edges, s'.handles[h], s'.log, h)
  {
    var s', acc, hs := Next(prog, s, Buffer), prog[s.k][s.b], s.handles[h];
    BufferSetting(prog, s);
    WithEntryExtends(s.log, acc.handle, Entry(s.k, s.b, Relevant(acc.mode)));
    assert Justified(s.edges, hs, s.log, h) && HandleShaped(s, h);
    assert hs.lastSync.Some? ==> Existing(s, hs.lastSync.value);
    SyncStaysJustified(s.edges, s'.edges, hs, s.log, s'.log, h, s.k, s.b);
  }

  /** New paths into the task being submitted do no harm to a handle whose synchronization job is that task. */
  lemma SyncStaysJustified(
    e: set<Edge>, e': set<Edge>, hs: HandleState, logs: Logs, logs': Logs, h: nat, k: nat, b: nat)
    requires GrowsInto(e, e', k, b) && Extends(logs, logs') && h < |logs| && logs'[h] == logs[h]
    requires Justified(e, hs, logs, h) && PathsJustified(e', logs') && hs.lastSync != Some(SyncTask(k, b))
    requires forall n {:trigger logs[h][n]} :: 0 <= n < |logs[h]| ==> logs[h][n].k <= k
    ensures Justified(e', hs, logs', h)
  {
    forall i: nat | hs.lastSync.Some? && Before(e', Task(i), hs.lastSync.value)
      ensures Justifies(logs', h, i, hs.lastMode)
    {
      if hs.lastSync.value == Task(k) {
        assert Before(e, Task(k), Task(k));
        var w :| w in logs[h] && Chained(logs, k, w.k) && Conflict(w.mode, hs.lastMode);
        ChainedOrder(logs, k, w.k);
        assert w.k == k && w in logs'[h];
      } else {
        OldPaths(e, e', k, b, Task(i), hs.lastSync.value);
        JustifiesMonotone(logs, logs', h, i, hs.lastMode);
      }
    }
  }

  lemma BufferKeepsExact(prog: Program, s: State)
    requires ExactInv(prog, s) && Enabled(prog, s, Buffer) && Processed(prog[s.k], s.b)
    ensures ExactInv(prog, Next(prog, s, Buffer))
  {
    var s', acc := Next(prog, s, Buffer), prog[s.k][s.b];
    var q, cs := Entry(s.k, s.b, Relevant(acc.mode)), OwnClasses(s.log[acc.handle], s.k);
    NextKeepsShape(prog, s, Buffer);
    BufferSetting(prog, s);
    DetectJustifiesPaths(s.edges, s.handles[acc.handle], cs, s.log, acc.handle, q);
    DetectJustifiesHandle(s.edges, s.handles[acc.handle], cs, s.log, acc.handle, q);
    forall h: nat | h < |s'.handles|
      ensures Justified(s'.edges, s'.handles[h], s'.log, h)
    {
      if h != acc.handle {
        OtherHandleJustified(prog, s, h);
      }
    }
  }

  lemma ReleaseKeepsJustified(e: set<Edge>, hs: HandleState, logs: Logs, h: nat, job: Job, slot: Option<Slot>)
    requires h < |logs| && Justified(e, hs, logs, h)
    ensures Justified(e, Release(hs, job, slot), logs, h)
  {
    if slot.Some? {
      WithoutMembers(hs.accessors, slot.value);
    }
  }

  lemma NextKeepsExact(prog: Program, s: State, step: Step)
    requires ExactInv(prog, s) && Enabled(prog, s, step)
    ensures ExactInv(prog, Next(prog, s, step))
  {
    var s' := Next(prog, s, step);
    NextKeepsShape(prog, s, step);
    if step.Buffer? && Processed(prog[s.k], s.b) {
      BufferKeepsExact(prog, s);
    } else {
      forall h: nat | h < |s'.handles|
        ensures Justified(s'.edges, s'.handles[h], s'.log, h)
      {
        assert Justified(s.edges, s.handles[h], s.log, h);
        if step.ReleaseTask? {
          ReleaseKeepsJustified(s.edges, s.handles[h], s.log, h, Task(step.i), Some(Slot(step.i, step.buf)));
        } else if step.ReleaseSync? {
          ReleaseKeepsJustified(s.edges, s.handles[h], s.log, h, step.sync, None);
        }
      }
    }
  }

  lemma {:induction false} RunKeepsExact(prog: Program, s: State, steps: seq<Step>)
    requires ExactInv(prog, s) && Runs(prog, s, steps)
    ensures ExactInv(prog, After(prog, s, steps))
    decreases |steps|
  {
    if steps != [] {
      NextKeepsExact(prog, s, steps[0]);
      RunKeepsExact(prog, Next(prog, s, steps[0]), steps[1..]);
    }
  }

  // ---------------------------------------------------------------- in terms of the program

  ghost predicate TasksConflict(prog: Program, i: nat, j: nat) {
    exists bi: nat, bj: nat {:trigger ConflictingAccesses(prog, i, bi, j, bj)} :: ConflictingAccesses(prog, i, bi, j, bj)
  }

  /** The reference definition: the transitive closure of conflicts in submission order. */
  ghost predicate MustFollow(prog: Program, i: nat, j: nat)
    decreases j
  {
    i == j || exists m: nat {:trigger MustFollow(prog, i, m)} ::
      i <= m < j && TasksConflict(prog, m, j) && MustFollow(prog, i, m)
  }

  ghost predicate TasksDetected(prog: Program, i: nat, j: nat) {
    exists bi: nat, bj: nat {:trigger DetectedConflict(prog, i, bi, j, bj)} :: DetectedConflict(prog, i, bi, j, bj)
  }

  /** The same chains, through conflicts between processed accesses only. */
  ghost predicate DetectedChain(prog: Program, i: nat, j: nat)
    decreases j
  {
    i == j || exists m: nat {:trigger DetectedChain(prog, i, m)} ::
      i <= m < j && TasksDetected(prog, m, j) && DetectedChain(prog, i, m)
  }

  lemma {:induction false} DetectedMustFollow(prog: Program, i: nat, j: nat)
    requires DetectedChain(prog, i, j)
    ensures MustFollow(prog, i, j)
    decreases j
  {
    if i != j {
      var m: nat :| i <= m < j && TasksDetected(prog, m, j) && DetectedChain(prog, i, m);
      var bi: nat, bj: nat :| DetectedConflict(prog, m, bi, j, bj);
      assert ConflictingAccesses(prog, m, bi, j, bj);
      DetectedMustFollow(prog, i, m);
    }
  }

  lemma {:induction false} ChainedIsDetected(prog: Program, s: State, i: nat, j: nat)
    requires LogIsHistory(prog, s) && Chained(s.log, i, j)
    ensures DetectedChain(prog, i, j)
    decreases j
  {
    if i != j {
      var m: nat :| i <= m < j && LogConflict(s.log, m, j) && Chained(s.log, i, m);
      var h: nat, p, q :| h < |s.log| && p in s.log[h] && q in s.log[h] && p.k == m && q.k == j && Conflict(p.mode, q.mode);
      HistoryEntries(prog, s.k, s.b, h, p);
      HistoryEntries(prog, s.k, s.b, h, q);
      ConflictByFlags(prog[m][p.b].mode, prog[j][q.b].mode);
      assert DetectedConflict(prog, m, p.b, j, q.b);
      ChainedIsDetected(prog, s, i, m);
    }
  }

  lemma ConflictIsWaitedFor(prog: Program, s: State, i: nat, j: nat)
    requires SafeProgram(prog) && Inv(prog, s) && WellFormed(prog, |s.handles|)
    requires i < j < s.k && TasksConflict(prog, i, j)
    ensures Task(i) in s.done || Before(s.edges, Task(i), Task(j))
  {
    var ai: nat, aj: nat :| ConflictingAccesses(prog, i, ai, j, aj);
    assert SafeTask(prog[i]) && SafeTask(prog[j]);
    var bi, bj := ConflictIsDetected(prog, i, ai, j, aj);
    var h := prog[i][bi].handle;
    var p, q := Entry(i, bi, Relevant(prog[i][bi].mode)), Entry(j, bj, Relevant(prog[j][bj].mode));
    assert prog[i][bi].handle < |s.handles|;
    HistoryEntries(prog, s.k, s.b, h, p);
    HistoryEntries(prog, s.k, s.b, h, q);
    ConflictByFlags(prog[i][bi].mode, prog[j][bj].mode);
    assert HandleOk(s, h);
    assert p in s.log[h] && q in s.log[h];
  }

  lemma {:induction false} MustFollowIsWaitedFor(prog: Program, s: State, i: nat, j: nat)
    requires SafeProgram(prog) && Inv(prog, s) && WellFormed(prog, |s.handles|) && j < s.k && MustFollow(prog, i, j)
    ensures Task(i) in s.done || Before(s.edges, Task(i), Task(j))
    decreases j
  {
    if i != j {
      var m: nat :| i <= m < j && TasksConflict(prog, m, j) && MustFollow(prog, i, m);
      MustFollowIsWaitedFor(prog, s, i, m);
      ConflictIsWaitedFor(prog, s, m, j);
      if Task(i) !in s.done {
        if Task(m) in s.done {
          GraphSettled(s);
          SettledPath(s.edges, s.done, Task(i), Task(m));
        } else {
          BeforeTrans(s.edges, Task(i), Task(m), Task(j));
        }
      }
    }
  }

  /** Nothing is serialized without need, in any program: a path follows a chain of conflicts between processed
      accesses. */
  lemma PathsFollowConflicts(prog: Program, handles: nat, steps: seq<Step>, i: nat, j: nat)
    requires Runs(prog, Initial(handles), steps)
    requires Before(After(prog, Initial(handles), steps).edges, Task(i), Task(j))
    ensures DetectedChain(prog, i, j) && MustFollow(prog, i, j)
  {
    InitialExact(prog, handles);
    RunKeepsExact(prog, Initial(handles), steps);
    ChainedIsDetected(prog, After(prog, Initial(handles), steps), i, j);
    DetectedMustFollow(prog, i, j);
  }

  /** The graph is exact: at every point of every run, a submitted task waits for an unfinished one if and only if a chain
      of conflicting accesses in submission order leads from that one to it. */
  lemma GraphIsExact(prog: Program, handles: nat, steps: seq<Step>, i: nat, j: nat)
    requires WellFormed(prog, handles) && SafeProgram(prog) && Runs(prog, Initial(handles), steps)
    requires var s := After(prog, Initial(handles), steps); j < s.k && Task(i) !in s.done
    ensures var s := After(prog, Initial(handles), steps);
      Before(s.edges, Task(i), Task(j)) <==> MustFollow(prog, i, j)
  {
    var s := After(prog, Initial(handles), steps);
    InitialInv(prog, handles);
    RunKeepsInv(prog, Initial(handles), steps);
    RunKeepsShape(prog, Initial(handles), steps);
    if Before(s.edges, Task(i), Task(j)) {
      PathsFollowConflicts(prog, handles, steps, i, j);
    }
    if MustFollow(prog, i, j) {
      MustFollowIsWaitedFor(prog, s, i, j);
    }
  }
}
