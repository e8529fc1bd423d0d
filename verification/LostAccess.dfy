/** Lost accesses are real: the scan for an earlier buffer with the same handle and mode comes before the test whether the
    buffer found takes part in sequential consistency. A task that loses an access this way can be followed by one that
    starts before it has finished, in spite of conflicting accesses. */
module LostAccess {
  import opened Wrappers
  import opened ImplicitDeps
  import opened HandleOrder
  import opened TaskGraph
  import opened Coverage
  import opened SequentialConsistency

  /** A task with one access, which is always processed. */
  function Single(h: nat, mode: Mode): (accs: seq<Access>) {
    [Access(h, h, mode, true)]
  }

  lemma SingleIsSafe(h: nat, mode: Mode)
    ensures SafeTask(Single(h, mode))
  {
    var accs := Single(h, mode);
    assert !DupBefore(accs, 0);
    forall b: nat | b < |accs| && Wanted(accs, b)
      ensures CoveredAt(accs, b)
    {
      assert Processed(accs, b);
    }
    forall g: nat
      ensures !Hazard(TaskClasses(accs, |accs|, g))
    {
      assert TaskClasses(accs, 0, g) == [];
      assert |TaskClasses(accs, 1, g)| <= 1;
    }
  }

  lemma DetectTargets(hs: HandleState, k: nat, b: nat, mode: Mode, x: Job, y: Job)
    requires (x, y) in Detect(hs, k, b, mode).edges
    ensures y == Task(k) || y == SyncTask(k, b)
  {
  }

  /** Everything that task 0 has done to handle h so far is in class c, and nothing waits for anything on that handle. */
  ghost predicate Unnoticed(s: State, h: nat, c: Class) {
    && s.k == 0 && s.running == {} && s.done == {} && h < |s.handles| == |s.log|
    && (forall x, y {:trigger (x, y) in s.edges} :: (x, y) in s.edges ==> y != Task(1))
    && s.handles[h].lastSync == None
    && (s.handles[h].accessors == [] || (ClassOf(s.handles[h].lastMode) == c && c != Exclusive))
  }

  /** Processed accesses to handle h are all in the shared class c. */
  ghost predicate Within(accs: seq<Access>, h: nat, c: Class) {
    forall p: nat {:trigger Processed(accs, p)} :: p < |accs| && Processed(accs, p) && accs[p].handle == h ==>
      AccessClass(accs[p]) == c != Exclusive
  }

  lemma BufferUnnoticed(prog: Program, s: State, h: nat, c: Class)
    requires |prog| == 2 && Within(prog[0], h, c) && Unnoticed(s, h, c) && Enabled(prog, s, Buffer)
    ensures Unnoticed(Next(prog, s, Buffer), h, c)
  {
    var acc := prog[0][s.b];
    if Processed(prog[0], s.b) {
      var hs, mode := s.handles[acc.handle], Relevant(acc.mode);
      ConcurrentByClass(mode, hs.lastMode);
      forall x, y | (x, y) in Detect(hs, 0, s.b, mode).edges
        ensures y != Task(1)
      {
        DetectTargets(hs, 0, s.b, mode, x, y);
      }
    }
  }

  lemma {:induction false} BuffersUnnoticed(prog: Program, handles: nat, n: nat, h: nat, c: Class)
    requires |prog| == 2 && WellFormed(prog, handles) && n <= |prog[0]| && h < handles && Within(prog[0], h, c)
    ensures Runs(prog, Initial(handles), Buffers(n))
    ensures var s := After(prog, Initial(handles), Buffers(n));
      Unnoticed(s, h, c) && s.b == n && |s.handles| == handles
  {
    if n != 0 {
      BuffersUnnoticed(prog, handles, n - 1, h, c);
      assert prog[0][n - 1].handle < handles;
      RunsOne(prog, Initial(handles), Buffers(n - 1), Buffer);
      assert Buffers(n - 1) + [Buffer] == Buffers(n);
      BufferUnnoticed(prog, After(prog, Initial(handles), Buffers(n - 1)), h, c);
    }
  }

  /** The next task accesses h in class c, and can start at once. */
  lemma NextStarts(prog: Program, s: State, h: nat, c: Class) returns (steps: seq<Step>)
    requires |prog| == 2 && prog[1] == Single(h, ModeOf(c)) && Unnoticed(s, h, c) && s.b == |prog[0]|
    ensures Runs(prog, s, steps)
    ensures Task(1) in After(prog, s, steps).running && Task(0) !in After(prog, s, steps).done
  {
    var s1 := Next(prog, s, Submitted);
    assert !DupBefore(prog[1], 0);
    ConcurrentByClass(ModeOf(c), s.handles[h].lastMode);
    var s2 := Next(prog, s1, Buffer);
    assert s2.edges == s.edges;
    var s3 := Next(prog, s2, Submitted);
    assert Ready(s3, Task(1));
    steps := [Submitted];
    assert After(prog, s, []) == s;
    RunsOne(prog, s, [], Submitted);
    assert [] + [Submitted] == [Submitted];
    RunsOne(prog, s, steps, Buffer);
    steps := steps + [Buffer];
    RunsOne(prog, s, steps, Submitted);
    steps := steps + [Submitted];
    RunsOne(prog, s, steps, StartJob(Task(1)));
    steps := steps + [StartJob(Task(1))];
  }

  /** Whatever task loses an access: after it, a harmless task with one access to that handle starts before it has
      finished, although their accesses conflict. */
  lemma LostAccessBreaksOrder(accs: seq<Access>, handles: nat, b: nat) returns (last: seq<Access>, steps: seq<Step>)
    requires WellFormed([accs], handles) && b < |accs| && Wanted(accs, b) && !CoveredAt(accs, b)
    ensures SafeTask(last) && WellFormed([accs, last], handles)
    ensures ConflictingAccesses([accs, last], 0, b, 1, 0)
    ensures Runs([accs, last], Initial(handles), steps)
    ensures var s := After([accs, last], Initial(handles), steps); Started(s, 1) && Task(0) !in s.done
  {
    var h := accs[b].handle;
    var c := UncoveredClass(accs, b);
    last := Single(h, ModeOf(c));
    SingleIsSafe(h, ModeOf(c));
    var prog: Program := [accs, last];
    assert [accs][0][b].handle < handles;
    forall k, d | 0 <= k < |prog| && 0 <= d < |prog[k]|
      ensures prog[k][d].handle < handles
    {
      assert k == 0 ==> [accs][0][d].handle < handles;
    }
    assert prog[0] == accs && prog[1] == last;
    ConflictByFlags(accs[b].mode, ModeOf(c));
    BuffersUnnoticed(prog, handles, |accs|, h, c);
    var more := NextStarts(prog, After(prog, Initial(handles), Buffers(|accs|)), h, c);
    RunsAppend(prog, Initial(handles), Buffers(|accs|), more);
    steps := Buffers(|accs|) + more;
  }

  // ---------------------------------------------------------------- the smallest instance

  const WRITER: seq<Access> := [Access(0, 0, {W}, true)]
  const EXEMPT_THEN_WANTED: seq<Access> := [Access(0, 0, {R}, false), Access(0, 0, {R}, true)]

  /** The reader has no hazard, and its one wanted read is lost. */
  lemma ReaderLosesRead()
    ensures DupBefore(EXEMPT_THEN_WANTED, 1) && !Covered(EXEMPT_THEN_WANTED)
    ensures !Processed(EXEMPT_THEN_WANTED, 0) && !Processed(EXEMPT_THEN_WANTED, 1)
    ensures forall h: nat :: !Hazard(TaskClasses(EXEMPT_THEN_WANTED, 2, h))
  {
    var reader := EXEMPT_THEN_WANTED;
    assert reader[0].handle == 0 && DupBefore(reader, 1);
    assert !CoveredAt(reader, 1);
    forall h: nat
      ensures !Hazard(TaskClasses(reader, 2, h))
    {
      assert TaskClasses(reader, 0, h) == TaskClasses(reader, 1, h) == [];
    }
  }

  /** A task reads a handle twice, and only its second read is to be ordered: it starts before the earlier writer has
      finished, although neither task has the hazard. */
  lemma ExemptReadHidesWantedRead() returns (steps: seq<Step>)
    ensures var prog := [WRITER, EXEMPT_THEN_WANTED];
      && WellFormed(prog, 1) && SafeTask(WRITER) && !Covered(EXEMPT_THEN_WANTED)
      && (forall h: nat :: !Hazard(TaskClasses(EXEMPT_THEN_WANTED, 2, h)))
      && ConflictingAccesses(prog, 0, 0, 1, 1)
      && Runs(prog, Initial(1), steps)
      && Started(After(prog, Initial(1), steps), 1) && Task(0) !in After(prog, Initial(1), steps).done
  {
    var prog := [WRITER, EXEMPT_THEN_WANTED];
    assert WRITER == Single(0, {W});
    SingleIsSafe(0, {W});
    ReaderLosesRead();
    steps := OvertakeWriter();
  }

  lemma OvertakeWriter() returns (steps: seq<Step>)
    ensures var prog := [WRITER, EXEMPT_THEN_WANTED];
      && Runs(prog, Initial(1), steps)
      && Started(After(prog, Initial(1), steps), 1) && Task(0) !in After(prog, Initial(1), steps).done
  {
    var prog := [WRITER, EXEMPT_THEN_WANTED];
    ReaderLosesRead();
    assert prog[1] == EXEMPT_THEN_WANTED && !DupBefore(prog[0], 0);
    var s := Initial(1);
    steps, s := TakeStep(prog, [], s, Buffer);
    steps, s := TakeStep(prog, steps, s, Submitted);
    steps, s := TakeStep(prog, steps, s, Buffer);
    steps, s := TakeStep(prog, steps, s, Buffer);
    steps, s := TakeStep(prog, steps, s, Submitted);
    steps, s := TakeStep(prog, steps, s, StartJob(Task(1)));
  }

  lemma TakeStep(prog: Program, steps: seq<Step>, s: State, step: Step) returns (steps': seq<Step>, s': State)
    requires Runs(prog, Initial(1), steps) && s == After(prog, Initial(1), steps) && Enabled(prog, s, step)
    ensures steps' == steps + [step] && s' == Next(prog, s, step)
    ensures Runs(prog, Initial(1), steps') && s' == After(prog, Initial(1), steps')
  {
    RunsOne(prog, Initial(1), steps, step);
    steps', s' := steps + [step], Next(prog, s, step);
  }
}
