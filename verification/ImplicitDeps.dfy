/** Implicit data dependencies, src/core/dependencies/implicit_data_deps.c: from the order in which the application
    submits tasks and the modes in which they access data, StarPU builds the dependency graph that makes a parallel
    execution sequentially consistent. This module has the operations on one data handle. */
module ImplicitDeps {
  import opened Wrappers

  /** `enum starpu_data_access_mode` is a set of flags. */
  datatype Flag =
    | R | W | Scratch | Redux | Commute | Ssend | Locality | MpiRedux | NoPlan | Unmap | NoFootprint | NoMode

  type Mode = set<Flag>

  // ---------------------------------------------------------------- modes as the application gives them

  /** A write that commutes, whatever its other flags. */
  predicate Commutes(mode: Mode) {
    W in mode && Commute in mode
  }

  predicate ReadsOnly(mode: Mode) {
    R in mode && mode <= {R, Ssend, Locality, NoFootprint}
  }

  predicate ReducesOnly(mode: Mode) {
    Redux in mode && mode <= {Redux, Ssend, Locality, NoFootprint}
  }

  predicate WritesOnly(mode: Mode) {
    W in mode && mode <= {W, Ssend, Locality, NoFootprint}
  }

  /** The promise to the application: two accesses may happen at the same time when both are commutative writes, or both
      only read, or both only reduce. */
  predicate MayOverlap(m: Mode, m': Mode) {
    (Commutes(m) && Commutes(m')) || (ReadsOnly(m) && ReadsOnly(m')) || (ReducesOnly(m) && ReducesOnly(m'))
  }

  // ---------------------------------------------------------------- modes as the detection compares them

  /** The flags that the detection does not care about are masked off. */
  function Relevant(mode: Mode): (m: Mode) {
    mode - {Ssend, Locality, NoFootprint}
  }

  /** Whether an access can run concurrently with the previous ones, whose mode is `previous`. */
  predicate Concurrent(mode: Mode, previous: Mode) {
    || (W in mode && Commute in mode && W in previous && Commute in previous)
    || (mode == {R} && previous == {R})
    || (mode == {Redux} && previous == {Redux})
  }

  /** What the test above distinguishes: three classes whose members may run together, and the rest. */
  datatype Class = Reading | Commuting | Reducing | Exclusive

  function ClassOf(mode: Mode): (c: Class) {
    if W in mode && Commute in mode then Commuting
    else if mode == {R} then Reading
    else if mode == {Redux} then Reducing
    else Exclusive
  }

  lemma ConcurrentByClass(mode: Mode, previous: Mode)
    ensures Concurrent(mode, previous) <==> ClassOf(mode) == ClassOf(previous) && ClassOf(mode) != Exclusive
  {
  }

  /** Masking leaves of the flags exactly what the classes are about. */
  lemma ClassByFlags(mode: Mode)
    ensures ClassOf(Relevant(mode)) == Commuting <==> Commutes(mode)
    ensures ClassOf(Relevant(mode)) == Reading <==> ReadsOnly(mode)
    ensures ClassOf(Relevant(mode)) == Reducing <==> ReducesOnly(mode)
    ensures Relevant(mode) == {W} <==> WritesOnly(mode)
  {
    assert R in mode && mode <= {R, Ssend, Locality, NoFootprint} ==> Relevant(mode) == {R};
    assert Redux in mode && mode <= {Redux, Ssend, Locality, NoFootprint} ==> Relevant(mode) == {Redux};
    assert W in mode && mode <= {W, Ssend, Locality, NoFootprint} ==> Relevant(mode) == {W};
    assert forall f {:trigger f in mode} :: f in mode && f !in {Ssend, Locality, NoFootprint} ==> f in Relevant(mode);
  }

  /** The k-th task that the application submits, or the empty synchronization task that StarPU creates while it
      processes buffer b of that task. */
  datatype Job = Task(k: nat) | SyncTask(k: nat, b: nat)

  /** A dependency slot: buffer b of task k. */
  datatype Slot = Slot(k: nat, b: nat)

  /** An edge (p, s): job s must wait for job p. */
  type Edge = (Job, Job)

  /** The part of `struct _starpu_data_state` that the detection uses. */
  datatype HandleState = HandleState(lastSync: Option<Job>, accessors: seq<Slot>, lastMode: Mode)

  const FRESH_HANDLE: HandleState := HandleState(None, [], {R})

  // ---------------------------------------------------------------- specification

  /** `_starpu_add_accessor`: task k joins the accessors and waits for the last synchronization task, if any. */
  function AccessorEdges(hs: HandleState, k: nat): (es: set<Edge>) {
    if hs.lastSync.Some? && hs.lastSync.value != Task(k) then {(hs.lastSync.value, Task(k))} else {}
  }

  function WithAccessor(hs: HandleState, k: nat, b: nat): (hs': HandleState) {
    hs.(accessors := [Slot(k, b)] + hs.accessors)
  }

  /** `_starpu_add_sync_task`: `job` waits for all accessors but task `ignored`, which is just dropped. */
  function SyncEdges(accessors: seq<Slot>, job: Job, ignored: nat): (es: set<Edge>) {
    set x | x in accessors && x.k != ignored :: (Task(x.k), job)
  }

  function WithSync(hs: HandleState, job: Job): (hs': HandleState) {
    hs.(lastSync := Some(job), accessors := [])
  }

  datatype Outcome = Outcome(hs: HandleState, edges: set<Edge>, sync: Option<Job>)

  /** `_starpu_detect_implicit_data_deps_with_handle` for buffer b of task k. */
  function Detect(hs: HandleState, k: nat, b: nat, mode: Mode): (o: Outcome) {
    if Concurrent(mode, hs.lastMode) then
      Outcome(WithAccessor(hs, k, b).(lastMode := mode), AccessorEdges(hs, k), None)
    else if |hs.accessors| >= 2 then
      if mode == {W} then
        Outcome(WithSync(hs, Task(k)).(lastMode := mode), SyncEdges(hs.accessors, Task(k), k), None)
      else
        var sync := SyncTask(k, b);
        var hs1 := WithSync(hs, sync);
        Outcome(WithAccessor(hs1, k, b).(lastMode := mode),
                SyncEdges(hs.accessors, sync, k) + AccessorEdges(hs1, k), Some(sync))
    else
      var hs1 := if |hs.accessors| == 1 then WithSync(hs, Task(hs.accessors[0].k)) else hs;
      Outcome(WithAccessor(hs1, k, b).(lastMode := mode), AccessorEdges(hs1, k), None)
  }

  function Without(slots: seq<Slot>, slot: Slot): (r: seq<Slot>) {
    if slots == [] then []
    else if slots[0] == slot then Without(slots[1..], slot)
    else [slots[0]] + Without(slots[1..], slot)
  }

  /** `_starpu_release_data_enforce_sequential_consistency` for a job that has finished: nobody needs to wait for it. */
  function Release(hs: HandleState, job: Job, slot: Option<Slot>): (hs': HandleState) {
    HandleState(if hs.lastSync == Some(job) then None else hs.lastSync,
                if slot.Some? then Without(hs.accessors, slot.value) else hs.accessors,
                hs.lastMode)
  }

  lemma {:induction false} WithoutMembers(slots: seq<Slot>, slot: Slot)
    ensures forall x :: x in Without(slots, slot) <==> x in slots && x != slot
    ensures |Without(slots, slot)| <= |slots|
  {
    if slots != [] {
      WithoutMembers(slots[1..], slot);
    }
  }

  // ---------------------------------------------------------------- the code, in place

  /** The edges declared so far with `_starpu_task_declare_deps_array`. */
  class DependencyGraph {
    var edges: set<Edge>

    constructor ()
      ensures edges == {}
    {
      edges := {};
    }

    method Declare(pred: Job, succ: Job)
      modifies this
      ensures edges == old(edges) + {(pred, succ)}
    {
      edges := edges + {(pred, succ)};
    }
  }

  class DataHandle {
    var lastSyncTask: Option<Job>
    var accessors: seq<Slot>
    var lastSubmittedMode: Mode

    ghost function State(): (hs: HandleState)
      reads this
    {
      HandleState(lastSyncTask, accessors, lastSubmittedMode)
    }

    constructor ()
      ensures State() == FRESH_HANDLE
    {
      lastSyncTask := None;
      accessors := [];
      lastSubmittedMode := {R};
    }

    method AddAccessor(graph: DependencyGraph, k: nat, b: nat)
      modifies this, graph
      ensures State() == WithAccessor(old(State()), k, b)
      ensures graph.edges == old(graph.edges) + AccessorEdges(old(State()), k)
    {
      accessors := [Slot(k, b)] + accessors;
      if lastSyncTask.Some? && lastSyncTask.value != Task(k) {
        graph.Declare(lastSyncTask.value, Task(k));
      }
    }

    /** Two passes over the list, as in the source: drop the slots of the ignored task, then depend on the rest. */
    method AddSyncTask(graph: DependencyGraph, job: Job, ignored: nat)
      modifies this, graph
      ensures State() == WithSync(old(State()), job)
      ensures graph.edges == old(graph.edges) + SyncEdges(old(State()).accessors, job, ignored)
    {
      ghost var all := accessors;
      var kept: seq<Slot> := [];
      for i := 0 to |accessors|
        invariant forall x :: x in kept <==> x in all[..i] && x.k != ignored
      {
        if accessors[i].k != ignored {
          kept := kept + [accessors[i]];
        }
      }
      assert all[..|all|] == all;
      for i := 0 to |kept|
        invariant unchanged(this)
        invariant graph.edges == old(graph.edges) + set x | x in kept[..i] :: (Task(x.k), job)
      {
        graph.Declare(Task(kept[i].k), job);
      }
      assert kept[..|kept|] == kept;
      lastSyncTask := Some(job);
      accessors := [];
    }

    method DetectDeps(graph: DependencyGraph, k: nat, b: nat, mode: Mode) returns (sync: Option<Job>)
      modifies this, graph
      ensures var o := Detect(old(State()), k, b, mode);
        State() == o.hs && graph.edges == old(graph.edges) + o.edges && sync == o.sync
    {
      sync := None;
      if Concurrent(mode, lastSubmittedMode) {
        AddAccessor(graph, k, b);
      } else if |accessors| >= 2 {
        if mode == {W} {
          AddSyncTask(graph, Task(k), k);
        } else {
          sync := Some(SyncTask(k, b));
          AddSyncTask(graph, sync.value, k);
          AddAccessor(graph, k, b);
        }
      } else {
        if |accessors| == 1 {
          lastSyncTask := Some(Task(accessors[0].k));
          accessors := [];
        }
        AddAccessor(graph, k, b);
      }
      lastSubmittedMode := mode;
    }

    method ReleaseJob(job: Job, slot: Option<Slot>)
      modifies this
      ensures State() == Release(old(State()), job, slot)
      ensures lastSyncTask != Some(job) && (old(lastSyncTask) != Some(job) ==> lastSyncTask == old(lastSyncTask))
      ensures forall x {:trigger x in accessors} :: x in accessors <==> x in old(accessors) && Some(x) != slot
      ensures lastSubmittedMode == old(lastSubmittedMode)
    {
      if lastSyncTask == Some(job) {
        lastSyncTask := None;
      }
      if slot.Some? {
        WithoutMembers(accessors, slot.value);
        accessors := Without(accessors, slot.value);
      }
    }
  }
}
