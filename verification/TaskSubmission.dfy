/** The loops over the buffers of a task, on mutable handles: `_starpu_detect_implicit_data_deps` when it is submitted and
    `_starpu_release_task_enforce_sequential_consistency` when it has finished. They take exactly the buffer and release
    steps of the machine. */
module TaskSubmission {
  import opened Wrappers
  import opened ImplicitDeps
  import opened TaskGraph

  /** The handles and the graph hold what the machine state says. */
  ghost predicate Holds(handles: seq<DataHandle>, graph: DependencyGraph, s: State)
    reads handles, graph
  {
    && |handles| == |s.handles| == |s.log| && graph.edges == s.edges
    && forall i {:trigger handles[i]} :: 0 <= i < |handles| ==> handles[i].State() == s.handles[i]
  }

  /** The scan backwards for a buffer that already stands for this one. */
  method FindDuplicate(accs: seq<Access>, b: nat) returns (found: bool)
    requires b < |accs|
    ensures found <==> DupBefore(accs, b)
  {
    var dup := b - 1;
    while dup >= 0
      invariant -1 <= dup < b
      invariant forall j :: dup < j < b ==> accs[j].root == accs[b].root
      invariant forall j :: dup < j < b ==> accs[j].handle != accs[b].handle || accs[j].mode != accs[b].mode
    {
      if accs[dup].handle == accs[b].handle && accs[dup].mode == accs[b].mode {
        return true;
      }
      if accs[dup].root != accs[b].root {
        return false;
      }
      dup := dup - 1;
    }
    return false;
  }

  /** Detection for buffer b, on its handle. */
  method DetectBuffer(handle: DataHandle, graph: DependencyGraph, k: nat, accs: seq<Access>, b: nat)
    returns (sync: Option<Job>)
    requires b < |accs|
    modifies handle, graph
    ensures Processed(accs, b) ==>
      var o := Detect(old(handle.State()), k, b, Relevant(accs[b].mode));
      handle.State() == o.hs && graph.edges == old(graph.edges) + o.edges && sync == o.sync
    ensures !Processed(accs, b) ==>
      handle.State() == old(handle.State()) && graph.edges == old(graph.edges) && sync == None
  {
    sync := None;
    var duplicate := FindDuplicate(accs, b);
    if Scratch !in accs[b].mode && !duplicate && accs[b].enabled {
      sync := handle.DetectDeps(graph, k, b, Relevant(accs[b].mode));
    }
  }

  /** Synchronization tasks of task k, for some of its first n buffers, each once and in order. */
  ghost predicate SyncsOf(syncs: seq<Job>, k: nat, n: nat) {
    && (forall i {:trigger syncs[i]} :: 0 <= i < |syncs| ==> syncs[i].SyncTask? && syncs[i].k == k && syncs[i].b < n)
    && (forall i, j {:trigger syncs[i], syncs[j]} :: 0 <= i < j < |syncs| ==> syncs[i].b < syncs[j].b)
  }

  /** Detection for task k, from machine state s: afterwards the handles and the graph hold the state that the buffer
      steps lead to, and the synchronization tasks to be submitted, each once, are those that these steps launched. */
  method DetectTask(
    handles: seq<DataHandle>, graph: DependencyGraph, k: nat, accs: seq<Access>, ghost prog: Program, ghost s: State)
    returns (syncs: seq<Job>)
    requires forall i, j :: 0 <= i < j < |handles| ==> handles[i] != handles[j]
    requires Holds(handles, graph, s) && s.k == k < |prog| && s.b == 0 && prog[k] == accs && WellFormed(prog, |handles|)
    modifies handles, graph
    ensures Runs(prog, s, Buffers(|accs|))
    ensures var s' := After(prog, s, Buffers(|accs|));
      && Holds(handles, graph, s') && s'.k == k && s'.b == |accs|
      && (forall job :: job in s'.syncs <==> job in s.syncs || job in syncs) && SyncsOf(syncs, k, |accs|)
  {
    ghost var t := s;
    syncs := [];
    for b := 0 to |accs|
      invariant Runs(prog, s, Buffers(b)) && t == After(prog, s, Buffers(b)) && t.k == k && t.b == b
      invariant Holds(handles, graph, t)
      invariant forall job :: job in t.syncs <==> job in s.syncs || job in syncs
      invariant SyncsOf(syncs, k, b)
    {
      assert prog[k][b].handle < |handles|;
      RunsOne(prog, s, Buffers(b), Buffer);
      assert Buffers(b) + [Buffer] == Buffers(b + 1);
      var sync := DetectBuffer(handles[accs[b].handle], graph, k, accs, b);
      if sync.Some? {
        syncs := syncs + [sync.value];
      }
      t := Next(prog, t, Buffer);
    }
  }

  /** Which buffers stand for themselves. */
  function Owners(accs: seq<Access>): (own: seq<bool>)
    ensures |own| == |accs| && forall b {:trigger own[b]} :: 0 <= b < |accs| ==> own[b] == !DupBefore(accs, b)
  {
    seq(|accs|, b requires 0 <= b < |accs| => !DupBefore(accs, b))
  }

  /** The releases of the first n buffers of task k: one for each that stands for itself. */
  function Releases(own: seq<bool>, k: nat, n: nat): (steps: seq<Step>)
    requires n <= |own|
  {
    if n == 0 then [] else Releases(own, k, n - 1) + (if own[n - 1] then [ReleaseTask(k, n - 1)] else [])
  }

  lemma ReleaseOne(prog: Program, s: State, own: seq<bool>, k: nat, b: nat)
    requires k < |prog| && b < |prog[k]| == |own| && Runs(prog, s, Releases(own, k, b))
    requires var t := After(prog, s, Releases(own, k, b)); Task(k) in t.done && prog[k][b].handle < |t.handles|
    ensures Runs(prog, s, Releases(own, k, b + 1))
    ensures var t, t' := After(prog, s, Releases(own, k, b)), After(prog, s, Releases(own, k, b + 1));
      t' == if own[b] then Next(prog, t, ReleaseTask(k, b)) else t
  {
    if own[b] {
      RunsOne(prog, s, Releases(own, k, b), ReleaseTask(k, b));
    } else {
      assert Releases(own, k, b + 1) == Releases(own, k, b);
    }
  }

  // ---------------------------------------------------------------- what the releases leave

  /** Handle state hs does not name buffer b of the finished task k. */
  ghost predicate Forgotten(hs: HandleState, k: nat, b: nat) {
    hs.lastSync != Some(Task(k)) && Slot(k, b) !in hs.accessors
  }

  lemma ReleaseForgets(hs: HandleState, k: nat, c: nat, b: nat)
    ensures var hs' := Release(hs, Task(k), Some(Slot(k, c)));
      Forgotten(hs', k, c) && (Forgotten(hs, k, b) ==> Forgotten(hs', k, b))
  {
    WithoutMembers(hs.accessors, Slot(k, c));
  }

  /** No handle names any of the first n buffers of task k that stand for themselves. */
  ghost predicate AllForgotten(accs: seq<Access>, own: seq<bool>, handles: seq<HandleState>, k: nat, n: nat)
    requires n <= |accs| == |own|
  {
    forall b: nat {:trigger own[b]} :: b < n && own[b] ==>
      accs[b].handle < |handles| && Forgotten(handles[accs[b].handle], k, b)
  }

  /** The handles after the first n buffers of task k have been dealt with. */
  function Released(accs: seq<Access>, own: seq<bool>, handles: seq<HandleState>, k: nat, n: nat)
    : (handles': seq<HandleState>)
    requires n <= |accs| == |own| && forall b {:trigger accs[b]} :: 0 <= b < n ==> accs[b].handle < |handles|
    ensures |handles'| == |handles|
  {
    if n == 0 then handles
    else
      var before, h := Released(accs, own, handles, k, n - 1), accs[n - 1].handle;
      if own[n - 1] then before[h := Release(before[h], Task(k), Some(Slot(k, n - 1)))] else before
  }

  lemma {:induction false} ReleasedForgets(accs: seq<Access>, own: seq<bool>, handles: seq<HandleState>, k: nat, n: nat)
    requires n <= |accs| == |own| && forall b {:trigger accs[b]} :: 0 <= b < n ==> accs[b].handle < |handles|
    ensures AllForgotten(accs, own, Released(accs, own, handles, k, n), k, n)
  {
    if n != 0 {
      ReleasedForgets(accs, own, handles, k, n - 1);
      var before, after := Released(accs, own, handles, k, n - 1), Released(accs, own, handles, k, n);
      forall b: nat | b < n && own[b]
        ensures Forgotten(after[accs[b].handle], k, b)
      {
        ReleaseForgets(before[accs[n - 1].handle], k, n - 1, b);
      }
    }
  }

  lemma {:induction false} ReleasesRun(prog: Program, s: State, own: seq<bool>, k: nat, n: nat)
    requires k < |prog| && n <= |prog[k]| == |own| && Task(k) in s.done
    requires forall b {:trigger prog[k][b]} :: 0 <= b < n ==> prog[k][b].handle < |s.handles|
    ensures Runs(prog, s, Releases(own, k, n))
    ensures After(prog, s, Releases(own, k, n)) == s.(handles := Released(prog[k], own, s.handles, k, n))
  {
    if n != 0 {
      ReleasesRun(prog, s, own, k, n - 1);
      assert prog[k][n - 1].handle < |s.handles|;
      ReleaseOne(prog, s, own, k, n - 1);
    }
  }

  /** The releases are always possible once the task has finished. They change nothing but the handles, none of which
      names any of its buffers afterwards. */
  lemma ReleasesForget(prog: Program, s: State, k: nat)
    requires k < |prog| && Task(k) in s.done && WellFormed(prog, |s.handles|)
    ensures var own, n := Owners(prog[k]), |prog[k]|;
      && Runs(prog, s, Releases(own, k, n))
      && var s' := After(prog, s, Releases(own, k, n));
         s' == s.(handles := s'.handles) && |s'.handles| == |s.handles| && AllForgotten(prog[k], own, s'.handles, k, n)
  {
    ReleasesRun(prog, s, Owners(prog[k]), k, |prog[k]|);
    ReleasedForgets(prog[k], Owners(prog[k]), s.handles, k, |prog[k]|);
  }

  // ---------------------------------------------------------------- the loop

  ghost predicate HoldStates(handles: seq<DataHandle>, states: seq<HandleState>)
    reads handles
  {
    |handles| == |states| && forall i {:trigger handles[i]} :: 0 <= i < |handles| ==> handles[i].State() == states[i]
  }

  method ReleaseBuffer(handle: DataHandle, k: nat, accs: seq<Access>, b: nat, ghost own: bool)
    requires b < |accs| && own == !DupBefore(accs, b)
    modifies handle
    ensures handle.State() == if own then Release(old(handle.State()), Task(k), Some(Slot(k, b))) else old(handle.State())
  {
    var duplicate := FindDuplicate(accs, b);
    if !duplicate {
      handle.ReleaseJob(Task(k), Some(Slot(k, b)));
    }
  }

  method ReleaseBuffers(
    handles: seq<DataHandle>, k: nat, accs: seq<Access>, ghost own: seq<bool>, ghost states: seq<HandleState>)
    requires forall i, j :: 0 <= i < j < |handles| ==> handles[i] != handles[j]
    requires own == Owners(accs) && forall b {:trigger accs[b]} :: 0 <= b < |accs| ==> accs[b].handle < |handles|
    requires HoldStates(handles, states)
    modifies handles
    ensures HoldStates(handles, Released(accs, own, states, k, |accs|))
  {
    for b := 0 to |accs|
      invariant HoldStates(handles, Released(accs, own, states, k, b))
    {
      ReleaseBuffer(handles[accs[b].handle], k, accs, b, own[b]);
    }
  }

  /** Release after task k has finished, from machine state s: afterwards the handles hold the state that these release
      steps lead to. */
  method ReleaseTaskData(
    handles: seq<DataHandle>, graph: DependencyGraph, k: nat, accs: seq<Access>, ghost prog: Program, ghost s: State)
    requires forall i, j :: 0 <= i < j < |handles| ==> handles[i] != handles[j]
    requires Holds(handles, graph, s) && k < |prog| && prog[k] == accs && Task(k) in s.done && WellFormed(prog, |handles|)
    modifies handles
    ensures Runs(prog, s, Releases(Owners(accs), k, |accs|))
    ensures Holds(handles, graph, After(prog, s, Releases(Owners(accs), k, |accs|)))
  {
    assert forall b {:trigger accs[b]} :: 0 <= b < |accs| ==> prog[k][b].handle < |handles|;
    assert HoldStates(handles, s.handles);
    ReleaseBuffers(handles, k, accs, Owners(accs), s.handles);
    ReleasesRun(prog, s, Owners(accs), k, |accs|);
  }
}
