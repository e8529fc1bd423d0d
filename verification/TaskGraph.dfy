/** The whole protocol: one thread submits a program of tasks, buffer by buffer, while workers start, finish and release
    jobs in any order that the dependency graph allows. */
module TaskGraph {
  import opened Wrappers
  import opened ImplicitDeps
  import opened HandleOrder

  /** One buffer of a task, in the order of `_starpu_sort_task_handles`. `enabled` is whether sequential consistency is
      on for the handle and for this access; `root` is the handle at the root of its partitioning. */
  datatype Access = Access(handle: nat, root: nat, mode: Mode, enabled: bool)

  type Program = seq<seq<Access>>

  /** The scan for an earlier buffer with the same handle and mode, which stops at another root. */
  predicate DupBefore(accs: seq<Access>, b: nat)
    requires b < |accs|
  {
    exists j {:trigger accs[j].handle} :: 0 <= j < b && accs[j].handle == accs[b].handle && accs[j].mode == accs[b].mode
      && forall i {:trigger accs[i].root} :: j < i < b ==> accs[i].root == accs[b].root
  }

  /** The application asks for this access to be ordered. */
  predicate Wanted(accs: seq<Access>, b: nat)
    requires b < |accs|
  {
    Scratch !in accs[b].mode && accs[b].enabled
  }

  /** Whether the detection looks at buffer b at all. The scan for an earlier one comes before the test of `enabled`, so
      an exempt buffer hides a wanted one behind it. */
  predicate Processed(accs: seq<Access>, b: nat)
    requires b < |accs|
  {
    Scratch !in accs[b].mode && !DupBefore(accs, b) && accs[b].enabled
  }

  function TaskEntry(accs: seq<Access>, k: nat, b: nat, h: nat): (es: seq<Entry>)
    requires b < |accs|
  {
    if Processed(accs, b) && accs[b].handle == h then [Entry(k, b, Relevant(accs[b].mode))] else []
  }

  /** The accesses of task k to handle h among its first b buffers. */
  function TaskHistory(accs: seq<Access>, k: nat, b: nat, h: nat): (es: seq<Entry>)
    requires b <= |accs|
  {
    if b == 0 then []
    else
      TaskHistory(accs, k, b - 1, h) + TaskEntry(accs, k, b - 1, h)
  }

  /** All accesses to handle h up to buffer b of task k. */
  function History(prog: Program, k: nat, b: nat, h: nat): (es: seq<Entry>)
    requires k <= |prog| && (if k < |prog| then b <= |prog[k]| else b == 0)
    decreases k
  {
    (if k == 0 then [] else History(prog, k - 1, |prog[k - 1]|, h))
    + (if k < |prog| then TaskHistory(prog[k], k, b, h) else [])
  }

  /** The classes of the accesses of a task to handle h, in order, among its first b buffers. */
  function TaskClasses(accs: seq<Access>, b: nat, h: nat): (cs: seq<Class>)
    requires b <= |accs|
  {
    if b == 0 then []
    else
      TaskClasses(accs, b - 1, h)
      + (if Processed(accs, b - 1) && accs[b - 1].handle == h then [ClassOf(Relevant(accs[b - 1].mode))] else [])
  }

  function AccessClass(acc: Access): (c: Class) {
    ClassOf(Relevant(acc.mode))
  }

  /** Some access to handle h in class c is processed. */
  predicate Sees(accs: seq<Access>, h: nat, c: Class) {
    exists b: nat {:trigger Processed(accs, b)} ::
      b < |accs| && Processed(accs, b) && accs[b].handle == h && AccessClass(accs[b]) == c
  }

  predicate SeesOther(accs: seq<Access>, h: nat, c: Class) {
    exists d {:trigger Sees(accs, h, d)} :: d != c && Sees(accs, h, d)
  }

  /** What is processed of the handle of buffer b conflicts with everything that buffer b conflicts with: an access of its
      class, or an exclusive one, or accesses of two different classes. */
  predicate CoveredAt(accs: seq<Access>, b: nat)
    requires b < |accs|
  {
    var h := accs[b].handle;
    || Sees(accs, h, AccessClass(accs[b]))
    || Sees(accs, h, Exclusive)
    || exists c {:trigger Sees(accs, h, c)} :: Sees(accs, h, c) && SeesOther(accs, h, c)
  }

  /** No wanted access is lost behind an exempt one. */
  ghost predicate Covered(accs: seq<Access>) {
    forall b: nat {:trigger CoveredAt(accs, b)} :: b < |accs| && Wanted(accs, b) ==> CoveredAt(accs, b)
  }

  /** A task that loses no access and does not fall into the hazard on any handle: a condition on its own buffers
      alone. */
  ghost predicate SafeTask(accs: seq<Access>) {
    && Covered(accs)
    && forall h: nat {:trigger TaskClasses(accs, |accs|, h)} :: !Hazard(TaskClasses(accs, |accs|, h))
  }

  ghost predicate SafeProgram(prog: Program) {
    forall k: nat {:trigger prog[k]} :: k < |prog| ==> SafeTask(prog[k])
  }

  ghost predicate WellFormed(prog: Program, handles: nat) {
    forall k, b {:trigger prog[k][b]} :: 0 <= k < |prog| && 0 <= b < |prog[k]| ==> prog[k][b].handle < handles
  }

  // ---------------------------------------------------------------- the machine

  /** `k` and `b` say where the submission stands: before buffer b of task k. `log` records, for each handle, the
      accesses processed so far; no step depends on it. */
  datatype State = State(
    handles: seq<HandleState>, log: seq<seq<Entry>>, edges: set<Edge>, k: nat, b: nat,
    syncs: set<Job>, running: set<Job>, done: set<Job>)

  function Initial(handles: nat): (s: State) {
    State(seq(handles, i => FRESH_HANDLE), seq(handles, i => []), {}, 0, 0, {}, {}, {})
  }

  datatype Step =
    | Buffer
    | Submitted
    | StartJob(job: Job)
    | FinishJob(job: Job)
    | ReleaseTask(i: nat, buf: nat)
    | ReleaseSync(sync: Job, handle: nat)

  predicate Launched(s: State, job: Job) {
    match job
    case Task(i) => i < s.k
    case SyncTask(_, _) => job in s.syncs
  }

  ghost predicate Ready(s: State, job: Job) {
    && Launched(s, job) && job !in s.running && job !in s.done
    && forall p {:trigger (p, job) in s.edges} :: (p, job) in s.edges ==> p in s.done
  }

  ghost predicate Enabled(prog: Program, s: State, step: Step) {
    match step
    case Buffer => s.k < |prog| && s.b < |prog[s.k]| && prog[s.k][s.b].handle < |s.handles| == |s.log|
    case Submitted => s.k < |prog| && s.b == |prog[s.k]|
    case StartJob(job) => Ready(s, job)
    case FinishJob(job) => job in s.running
    case ReleaseTask(i, buf) =>
      i < |prog| && buf < |prog[i]| && prog[i][buf].handle < |s.handles| && Task(i) in s.done
    case ReleaseSync(sync, handle) => sync.SyncTask? && sync in s.done && handle < |s.handles|
  }

  function ProcessBuffer(s: State, acc: Access): (s': State)
    requires acc.handle < |s.handles| == |s.log|
  {
    var h, mode := acc.handle, Relevant(acc.mode);
    var o := Detect(s.handles[h], s.k, s.b, mode);
    s.(handles := s.handles[h := o.hs], log := s.log[h := s.log[h] + [Entry(s.k, s.b, mode)]],
       edges := s.edges + o.edges, syncs := s.syncs + (if o.sync.Some? then {o.sync.value} else {}))
  }

  ghost function Next(prog: Program, s: State, step: Step): (s': State)
    requires Enabled(prog, s, step)
  {
    match step
    case Buffer =>
      (if Processed(prog[s.k], s.b) then ProcessBuffer(s, prog[s.k][s.b]) else s).(b := s.b + 1)
    case Submitted => s.(k := s.k + 1, b := 0)
    case StartJob(job) => s.(running := s.running + {job})
    case FinishJob(job) => s.(running := s.running - {job}, done := s.done + {job})
    case ReleaseTask(i, buf) =>
      var h := prog[i][buf].handle;
      s.(handles := s.handles[h := Release(s.handles[h], Task(i), Some(Slot(i, buf)))])
    case ReleaseSync(sync, handle) =>
      s.(handles := s.handles[handle := Release(s.handles[handle], sync, None)])
  }

  ghost predicate Runs(prog: Program, s: State, steps: seq<Step>)
    decreases |steps|
  {
    steps == [] || (Enabled(prog, s, steps[0]) && Runs(prog, Next(prog, s, steps[0]), steps[1..]))
  }

  ghost function After(prog: Program, s: State, steps: seq<Step>): (s': State)
    requires Runs(prog, s, steps)
    decreases |steps|
  {
    if steps == [] then s else After(prog, Next(prog, s, steps[0]), steps[1..])
  }

  /** The submission of n buffers, without anything in between. */
  function Buffers(n: nat): (steps: seq<Step>)
    ensures |steps| == n && forall step :: step in steps ==> step == Buffer
  {
    seq(n, i => Buffer)
  }

  lemma {:induction false} RunsAppend(prog: Program, s: State, first: seq<Step>, rest: seq<Step>)
    requires Runs(prog, s, first) && Runs(prog, After(prog, s, first), rest)
    ensures Runs(prog, s, first + rest)
    ensures After(prog, s, first + rest) == After(prog, After(prog, s, first), rest)
    decreases |first|
  {
    if first == [] {
      assert first + rest == rest;
    } else {
      assert (first + rest)[0] == first[0] && (first + rest)[1..] == first[1..] + rest;
      RunsAppend(prog, Next(prog, s, first[0]), first[1..], rest);
    }
  }

  lemma RunsOne(prog: Program, s: State, steps: seq<Step>, step: Step)
    requires Runs(prog, s, steps) && Enabled(prog, After(prog, s, steps), step)
    ensures Runs(prog, s, steps + [step])
    ensures After(prog, s, steps + [step]) == Next(prog, After(prog, s, steps), step)
  {
    var s1 := After(prog, s, steps);
    var s2 := Next(prog, s1, step);
    assert [step][0] == step && [step][1..] == [];
    assert Runs(prog, s2, []) && After(prog, s2, []) == s2;
    assert Runs(prog, s1, [step]) && After(prog, s1, [step]) == s2;
    RunsAppend(prog, s, steps, [step]);
  }
}
