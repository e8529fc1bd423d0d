/** What releases are for: a handle never names a job that has been released on it, so when everything has finished and been
    released, the next task waits for nobody. */
module CleanHandles {
  import opened Wrappers
  import opened ImplicitDeps
  import opened TaskGraph
  import opened GraphShape

  // ---------------------------------------------------------------- one release

  /** After the release of a synchronization task its handle does not name it; nothing else about the state changes. */
  lemma SyncForgotten(prog: Program, s: State, sync: Job, h: nat)
    requires Enabled(prog, s, ReleaseSync(sync, h))
    ensures var s' := Next(prog, s, ReleaseSync(sync, h));
      && s' == s.(handles := s'.handles) && |s'.handles| == |s.handles|
      && s'.handles[h].lastSync != Some(sync)
      && (s.handles[h].lastSync != Some(sync) ==> s' == s)
      && (forall g: nat {:trigger s'.handles[g]} :: g < |s.handles| ==>
            s'.handles[g] == if g == h then s.handles[g].(lastSync := s'.handles[g].lastSync) else s.handles[g])
  {
    assert s.handles[h].lastSync != Some(sync) ==> Release(s.handles[h], sync, None) == s.handles[h];
  }

  // ---------------------------------------------------------------- the names on a handle

  /** Buffer b of task k has been processed on handle h. */
  ghost predicate ProcessedOn(prog: Program, s: State, k: nat, b: nat, h: nat) {
    && k < |prog| && b < |prog[k]| && Processed(prog[k], b) && prog[k][b].handle == h
    && (k < s.k || (k == s.k && b < s.b))
  }

  /** Buffer b of task k has been processed on handle h and not been released since. */
  ghost predicate Held(prog: Program, s: State, past: seq<Step>, k: nat, b: nat, h: nat) {
    ProcessedOn(prog, s, k, b, h) && ReleaseTask(k, b) !in past
  }

  /** Every job that handle h names still holds it. */
  ghost predicate NamesHolders(prog: Program, s: State, past: seq<Step>, h: nat)
    requires h < |s.handles|
  {
    var hs := s.handles[h];
    && (forall x {:trigger x in hs.accessors} :: x in hs.accessors ==> Held(prog, s, past, x.k, x.b, h))
    && match hs.lastSync
       case None => true
       case Some(Task(k)) => exists b: nat {:trigger Held(prog, s, past, k, b, h)} :: Held(prog, s, past, k, b, h)
       case Some(SyncTask(k, b)) => ProcessedOn(prog, s, k, b, h) && ReleaseSync(SyncTask(k, b), h) !in past
  }

  ghost predicate NamesInv(prog: Program, s: State, past: seq<Step>) {
    && ShapeInv(prog, s)
    && (forall k, b {:trigger ReleaseTask(k, b) in past} :: ReleaseTask(k, b) in past ==> Task(k) in s.done)
    && (forall sync, h {:trigger ReleaseSync(sync, h) in past} :: ReleaseSync(sync, h) in past ==> sync in s.done)
    && (forall h: nat {:trigger NamesHolders(prog, s, past, h)} :: h < |s.handles| ==> NamesHolders(prog, s, past, h))
  }

  lemma HeldOn(prog: Program, s: State, past: seq<Step>, s': State, past': seq<Step>, k: nat, b: nat, h: nat)
    requires Held(prog, s, past, k, b, h) && (s.k < s'.k || (s.k == s'.k && s.b <= s'.b))
    requires ReleaseTask(k, b) in past' ==> ReleaseTask(k, b) in past
    ensures Held(prog, s', past', k, b, h)
  {
  }

  /** A step that leaves the handle alone and does not release what it names. */
  lemma NamesStay(prog: Program, s: State, past: seq<Step>, s': State, step: Step, h: nat)
    requires h < |s.handles| && NamesHolders(prog, s, past, h) && (s.k < s'.k || (s.k == s'.k && s.b <= s'.b))
    requires |s'.handles| == |s.handles| && s'.handles[h] == s.handles[h]
    requires step.ReleaseTask? ==> !ProcessedOn(prog, s, step.i, step.buf, h)
    requires step.ReleaseSync? ==> step.handle != h
    ensures NamesHolders(prog, s', past + [step], h)
  {
    var hs := s.handles[h];
    if hs.lastSync.Some? && hs.lastSync.value.Task? {
      var k := hs.lastSync.value.k;
      var b: nat :| Held(prog, s, past, k, b, h);
      HeldOn(prog, s, past, s', past + [step], k, b, h);
    }
  }

  /** The names after a detection are the old ones and those of the access itself. */
  lemma NamesAfterDetect(hs: HandleState, k: nat, b: nat, mode: Mode)
    ensures var hs' := Detect(hs, k, b, mode).hs;
      && (forall x {:trigger x in hs'.accessors} :: x in hs'.accessors ==> x in hs.accessors || x == Slot(k, b))
      && (hs'.lastSync == hs.lastSync || hs'.lastSync == Some(Task(k)) || hs'.lastSync == Some(SyncTask(k, b))
          || exists x :: x in hs.accessors && hs'.lastSync == Some(Task(x.k)))
  {
    if |hs.accessors| == 1 {
      assert hs.accessors[0] in hs.accessors;
    }
  }

  lemma DetectNames(prog: Program, s: State, past: seq<Step>)
    requires NamesInv(prog, s, past) && Enabled(prog, s, Buffer) && Processed(prog[s.k], s.b)
    ensures NamesHolders(prog, Next(prog, s, Buffer), past + [Buffer], prog[s.k][s.b].handle)
  {
    var s', past', acc := Next(prog, s, Buffer), past + [Buffer], prog[s.k][s.b];
    var h, hs := acc.handle, s.handles[acc.handle];
    GraphSettled(s);
    assert !Launched(s, SyncTask(s.k, s.b));
    assert NamesHolders(prog, s, past, h);
    assert Held(prog, s', past', s.k, s.b, h);
    NamesAfterDetect(hs, s.k, s.b, Relevant(acc.mode));
    if hs.lastSync.Some? && hs.lastSync.value.Task? {
      var b: nat :| Held(prog, s, past, hs.lastSync.value.k, b, h);
      HeldOn(prog, s, past, s', past', hs.lastSync.value.k, b, h);
    }
    forall x | x in hs.accessors
      ensures Held(prog, s', past', x.k, x.b, h)
    {
      HeldOn(prog, s, past, s', past', x.k, x.b, h);
    }
  }

  /** A release on the handle drops what it releases. */
  lemma ReleaseNames(prog: Program, s: State, past: seq<Step>, step: Step, h: nat)
    requires NamesInv(prog, s, past) && Enabled(prog, s, step) && h < |s.handles|
    requires step.ReleaseTask? && prog[step.i][step.buf].handle == h
    ensures NamesHolders(prog, Next(prog, s, step), past + [step], h)
  {
    var s', past', hs := Next(prog, s, step), past + [step], s.handles[h];
    assert NamesHolders(prog, s, past, h);
    WithoutMembers(hs.accessors, Slot(step.i, step.buf));
    if hs.lastSync.Some? && hs.lastSync.value.Task? && hs.lastSync.value != Task(step.i) {
      var b: nat :| Held(prog, s, past, hs.lastSync.value.k, b, h);
      HeldOn(prog, s, past, s', past', hs.lastSync.value.k, b, h);
    }
  }

  lemma ReleaseSyncNames(prog: Program, s: State, past: seq<Step>, step: Step)
    requires NamesInv(prog, s, past) && Enabled(prog, s, step) && step.ReleaseSync?
    ensures NamesHolders(prog, Next(prog, s, step), past + [step], step.handle)
  {
    var s', past', hs := Next(prog, s, step), past + [step], s.handles[step.handle];
    assert NamesHolders(prog, s, past, step.handle);
    if hs.lastSync.Some? && hs.lastSync.value.Task? {
      var b: nat :| Held(prog, s, past, hs.lastSync.value.k, b, step.handle);
      HeldOn(prog, s, past, s', past', hs.lastSync.value.k, b, step.handle);
    }
  }

  /** Every step keeps the names honest. */
  lemma NextKeepsNames(prog: Program, s: State, past: seq<Step>, step: Step)
    requires NamesInv(prog, s, past) && Enabled(prog, s, step)
    ensures NamesInv(prog, Next(prog, s, step), past + [step])
  {
    var s' := Next(prog, s, step);
    NextKeepsShape(prog, s, step);
    forall h: nat | h < |s'.handles|
      ensures NamesHolders(prog, s', past + [step], h)
    {
      assert NamesHolders(prog, s, past, h);
      if step.Buffer? && Processed(prog[s.k], s.b) && prog[s.k][s.b].handle == h {
        DetectNames(prog, s, past);
      } else if step.ReleaseTask? && prog[step.i][step.buf].handle == h {
        ReleaseNames(prog, s, past, step, h);
      } else if step.ReleaseSync? && step.handle == h {
        ReleaseSyncNames(prog, s, past, step);
      } else {
        NamesStay(prog, s, past, s', step, h);
      }
    }
  }

  lemma {:induction false} RunKeepsNames(prog: Program, s: State, past: seq<Step>, steps: seq<Step>)
    requires NamesInv(prog, s, past) && Runs(prog, s, steps)
    ensures NamesInv(prog, After(prog, s, steps), past + steps)
    decreases |steps|
  {
    if steps == [] {
      assert past + steps == past;
    } else {
      NextKeepsNames(prog, s, past, steps[0]);
      RunKeepsNames(prog, Next(prog, s, steps[0]), past + [steps[0]], steps[1..]);
      assert past + [steps[0]] + steps[1..] == past + steps;
    }
  }

  // ---------------------------------------------------------------- nothing left

  /** Between two tasks: every buffer that was processed has been released, and every synchronization task has been
      released on its handle. A release comes after the end of its job, so all of them have finished. */
  ghost predicate AllReleased(prog: Program, s: State, steps: seq<Step>) {
    && s.b == 0
    && (forall k: nat, b: nat {:trigger ReleaseTask(k, b) in steps} ::
          k < |prog| && k < s.k && b < |prog[k]| && Processed(prog[k], b) ==> ReleaseTask(k, b) in steps)
    && (forall k: nat, b: nat, h: nat {:trigger ReleaseSync(SyncTask(k, b), h) in steps} ::
          SyncTask(k, b) in s.syncs && ProcessedOn(prog, s, k, b, h) ==> ReleaseSync(SyncTask(k, b), h) in steps)
  }

  /** The handle names nobody. */
  predicate Clean(hs: HandleState) {
    hs.lastSync == None && hs.accessors == []
  }

  /** Who is named when somebody is. */
  lemma NamedJobs(prog: Program, s: State, past: seq<Step>, h: nat)
    requires NamesInv(prog, s, past) && h < |s.handles|
    ensures s.handles[h].accessors != [] ==> exists k: nat, b: nat :: Held(prog, s, past, k, b, h)
    ensures s.handles[h].lastSync.Some? ==>
      || (exists k: nat, b: nat :: Held(prog, s, past, k, b, h))
      || (exists k: nat, b: nat :: SyncTask(k, b) in s.syncs && ProcessedOn(prog, s, k, b, h)
                                   && ReleaseSync(SyncTask(k, b), h) !in past)
  {
    assert NamesHolders(prog, s, past, h);
    var hs := s.handles[h];
    if hs.accessors != [] {
      var x := hs.accessors[0];
      assert x in hs.accessors && Held(prog, s, past, x.k, x.b, h);
    }
    if hs.lastSync.Some? && hs.lastSync.value.SyncTask? {
      var k, b := hs.lastSync.value.k, hs.lastSync.value.b;
      assert Existing(s, SyncTask(k, b)) && ProcessedOn(prog, s, k, b, h);
    }
  }

  lemma ReleasedIsClean(prog: Program, handles: nat, steps: seq<Step>, h: nat)
    requires Runs(prog, Initial(handles), steps) && h < |After(prog, Initial(handles), steps).handles|
    requires AllReleased(prog, After(prog, Initial(handles), steps), steps)
    ensures Clean(After(prog, Initial(handles), steps).handles[h])
  {
    var s := After(prog, Initial(handles), steps);
    InitialShape(prog, handles);
    RunKeepsNames(prog, Initial(handles), [], steps);
    assert [] + steps == steps;
    NamedJobs(prog, s, steps, h);
  }

  /** From clean handles, while task k is being submitted: they name that task and its synchronization tasks only, and it
      waits for nobody else. */
  ghost predicate OnlyOwn(s0: State, s: State) {
    && s.k == s0.k
    && (forall x, y {:trigger (x, y) in s.edges} :: (x, y) in s.edges && (x, y) !in s0.edges ==> x.SyncTask? && x.k == s0.k)
    && (forall h: nat {:trigger s.handles[h]} :: h < |s.handles| ==>
          && (forall x {:trigger x in s.handles[h].accessors} :: x in s.handles[h].accessors ==> x.k == s0.k)
          && (s.handles[h].lastSync.Some? ==> s.handles[h].lastSync.value.k == s0.k))
  }

  lemma NextKeepsOnlyOwn(prog: Program, s0: State, s: State, step: Step)
    requires OnlyOwn(s0, s) && Enabled(prog, s, step) && step != Submitted
    ensures OnlyOwn(s0, Next(prog, s, step))
  {
    match step {
      case Buffer =>
        if Processed(prog[s.k], s.b) {
          NamesAfterDetect(s.handles[prog[s.k][s.b].handle], s.k, s.b, Relevant(prog[s.k][s.b].mode));
        }
      case ReleaseTask(i, buf) =>
        WithoutMembers(s.handles[prog[i][buf].handle].accessors, Slot(i, buf));
      case _ =>
    }
  }

  lemma {:induction false} RunKeepsOnlyOwn(prog: Program, s0: State, s: State, steps: seq<Step>)
    requires OnlyOwn(s0, s) && Runs(prog, s, steps) && Submitted !in steps
    ensures OnlyOwn(s0, After(prog, s, steps))
    decreases |steps|
  {
    if steps != [] {
      NextKeepsOnlyOwn(prog, s0, s, steps[0]);
      RunKeepsOnlyOwn(prog, s0, Next(prog, s, steps[0]), steps[1..]);
    }
  }

  /** In every program and every run: once every job has been released, no handle names any job, and whatever happens
      while the next task is being submitted, it gets no edge from any job but its own synchronization tasks. */
  lemma NothingLeftBehind(prog: Program, handles: nat, steps: seq<Step>, more: seq<Step>)
    requires Runs(prog, Initial(handles), steps)
    requires var s := After(prog, Initial(handles), steps);
      AllReleased(prog, s, steps) && Runs(prog, s, more) && Submitted !in more
    ensures var s := After(prog, Initial(handles), steps);
      && (forall h {:trigger s.handles[h]} :: 0 <= h < |s.handles| ==> Clean(s.handles[h]))
      && (forall x, y {:trigger (x, y) in After(prog, s, more).edges} ::
            (x, y) in After(prog, s, more).edges && (x, y) !in s.edges ==> x.SyncTask? && x.k == s.k)
  {
    var s := After(prog, Initial(handles), steps);
    forall h | 0 <= h < |s.handles|
      ensures Clean(s.handles[h])
    {
      ReleasedIsClean(prog, handles, steps, h);
    }
    RunKeepsOnlyOwn(prog, s, s, more);
  }
}
