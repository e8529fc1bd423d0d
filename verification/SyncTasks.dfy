/** When the detection creates a synchronization task: only to end a group of accesses that may overlap, and only for an
    access that does more than write. */
module SyncTasks {
  import opened Wrappers
  import opened ImplicitDeps
  import opened HandleOrder
  import opened TaskGraph
  import opened AccessHistory

  // ---------------------------------------------------------------- one handle

  /** The last two accesses belong to one group. */
  ghost predicate Grouped(es: seq<Entry>) {
    |es| >= 2 && !Conflict(es[|es| - 2].mode, es[|es| - 1].mode)
  }

  /** What the number of accessors says about the accesses. `kept` is whether no job has been released yet. */
  ghost predicate Tracks(hs: HandleState, es: seq<Entry>, kept: bool) {
    && (if es == [] then hs.accessors == [] else hs.lastMode == es[|es| - 1].mode)
    && (|hs.accessors| >= 2 ==> Grouped(es))
    && (kept && Grouped(es) ==> |hs.accessors| >= 2)
    && (kept && es != [] && ClassOf(hs.lastMode) != Exclusive ==> hs.accessors != [])
  }

  /** Access n comes right after a group of at least two that it does not belong to, and does more than write; `job` is
      the synchronization task in front of it. */
  ghost predicate DueAt(es: seq<Entry>, n: nat, job: Job) {
    && 2 <= n < |es| && job == SyncTask(es[n].k, es[n].b)
    && !Conflict(es[n - 2].mode, es[n - 1].mode) && Conflict(es[n - 1].mode, es[n].mode) && es[n].mode != {W}
  }

  lemma DetectTracks(hs: HandleState, es: seq<Entry>, kept: bool, en: Entry)
    requires Tracks(hs, es, kept)
    ensures var o := Detect(hs, en.k, en.b, en.mode);
      && Tracks(o.hs, es + [en], kept)
      && (o.sync.Some? ==> DueAt(es + [en], |es|, o.sync.value))
      && (kept && DueAt(es + [en], |es|, SyncTask(en.k, en.b)) ==> o.sync == Some(SyncTask(en.k, en.b)))
  {
    ConcurrentByClass(en.mode, hs.lastMode);
  }

  // ---------------------------------------------------------------- whole runs

  ghost predicate Due(logs: seq<seq<Entry>>, job: Job) {
    exists h: nat, n: nat {:trigger DueAt(logs[h], n, job)} :: h < |logs| && DueAt(logs[h], n, job)
  }

  ghost predicate SyncInv(s: State, kept: bool) {
    && |s.log| == |s.handles|
    && (forall h: nat {:trigger s.handles[h]} :: h < |s.handles| ==> Tracks(s.handles[h], s.log[h], kept))
    && (forall job {:trigger job in s.syncs} :: job in s.syncs ==> Due(s.log, job))
    && (kept ==> forall h: nat, n: nat, job {:trigger DueAt(s.log[h], n, job)} :: h < |s.log| && DueAt(s.log[h], n, job) ==>
          job in s.syncs)
  }

  predicate Keeps(step: Step) {
    !step.ReleaseTask? && !step.ReleaseSync?
  }

  lemma BufferKeepsSyncs(prog: Program, s: State, kept: bool)
    requires SyncInv(s, kept) && Enabled(prog, s, Buffer)
    ensures SyncInv(Next(prog, s, Buffer), kept)
  {
    if Processed(prog[s.k], s.b) {
      var acc, s' := prog[s.k][s.b], Next(prog, s, Buffer);
      var g, en := acc.handle, Entry(s.k, s.b, Relevant(acc.mode));
      var es := s.log[g];
      DetectTracks(s.handles[g], es, kept, en);
      assert s'.log[g] == es + [en];
      forall n: nat, job | n < |es|
        ensures DueAt(es + [en], n, job) <==> DueAt(es, n, job)
      {
      }
      forall job | job in s'.syncs
        ensures Due(s'.log, job)
      {
        if job in s.syncs {
          var h: nat, n: nat :| h < |s.log| && DueAt(s.log[h], n, job);
          assert DueAt(s'.log[h], n, job);
        } else {
          assert DueAt(s'.log[g], |es|, job);
        }
      }
      forall h: nat, n: nat, job | kept && h < |s'.log| && DueAt(s'.log[h], n, job)
        ensures job in s'.syncs
      {
        assert h != g || n < |es| ==> DueAt(s.log[h], n, job);
      }
    }
  }

  lemma ReleaseTracks(hs: HandleState, es: seq<Entry>, kept: bool, job: Job, slot: Slot)
    requires Tracks(hs, es, kept)
    ensures Tracks(Release(hs, job, Some(slot)), es, false)
  {
    WithoutMembers(hs.accessors, slot);
  }

  lemma NextKeepsSyncs(prog: Program, s: State, step: Step, kept: bool)
    requires SyncInv(s, kept) && Enabled(prog, s, step)
    ensures SyncInv(Next(prog, s, step), kept && Keeps(step))
  {
    match step {
      case Buffer => BufferKeepsSyncs(prog, s, kept);
      case ReleaseTask(i, buf) =>
        ReleaseTracks(s.handles[prog[i][buf].handle], s.log[prog[i][buf].handle], kept, Task(i), Slot(i, buf));
      case _ =>
    }
  }

  lemma {:induction false} RunKeepsSyncs(prog: Program, s: State, steps: seq<Step>, kept: bool)
    requires SyncInv(s, kept) && Runs(prog, s, steps)
    requires kept ==> forall i {:trigger steps[i]} :: 0 <= i < |steps| ==> Keeps(steps[i])
    ensures SyncInv(After(prog, s, steps), kept) && (LogIsHistory(prog, s) ==> LogIsHistory(prog, After(prog, s, steps)))
    decreases |steps|
  {
    if steps != [] {
      NextKeepsSyncs(prog, s, steps[0], kept);
      if LogIsHistory(prog, s) {
        NextKeepsLog(prog, s, steps[0]);
      }
      RunKeepsSyncs(prog, Next(prog, s, steps[0]), steps[1..], kept);
    }
  }

  // ---------------------------------------------------------------- in terms of the program

  /** The entry stands for a buffer of the program. */
  ghost predicate InProgram(prog: Program, en: Entry) {
    en.k < |prog| && en.b < |prog[en.k]|
  }

  /** The mode of that buffer as the application gave it. */
  ghost function Given(prog: Program, en: Entry): (m: Mode)
    requires InProgram(prog, en)
  {
    prog[en.k][en.b].mode
  }

  /** Buffer b of task k is access n of the list. The two accesses before it may overlap; it may not overlap with them, and
      does more than write. */
  ghost predicate EndsGroup(prog: Program, es: seq<Entry>, n: nat, k: nat, b: nat) {
    && 2 <= n < |es| && es[n].k == k && es[n].b == b
    && InProgram(prog, es[n - 2]) && InProgram(prog, es[n - 1]) && InProgram(prog, es[n])
    && MayOverlap(Given(prog, es[n - 2]), Given(prog, es[n - 1]))
    && !MayOverlap(Given(prog, es[n - 1]), Given(prog, es[n])) && !WritesOnly(Given(prog, es[n]))
  }

  lemma EntryGiven(prog: Program, s: State, h: nat, n: nat)
    requires At(prog, s) && n < |History(prog, s.k, s.b, h)|
    ensures var en := History(prog, s.k, s.b, h)[n]; InProgram(prog, en) && en.mode == Relevant(Given(prog, en))
  {
    HistoryEntries(prog, s.k, s.b, h, History(prog, s.k, s.b, h)[n]);
  }

  lemma DueIsEnd(prog: Program, s: State, h: nat, n: nat, k: nat, b: nat)
    requires At(prog, s)
    ensures DueAt(History(prog, s.k, s.b, h), n, SyncTask(k, b)) <==> EndsGroup(prog, History(prog, s.k, s.b, h), n, k, b)
  {
    var es := History(prog, s.k, s.b, h);
    if 2 <= n < |es| {
      EntryGiven(prog, s, h, n - 2);
      EntryGiven(prog, s, h, n - 1);
      EntryGiven(prog, s, h, n);
      DueByFlags(prog, es[n - 2], es[n - 1], es[n]);
    }
  }

  lemma DueByFlags(prog: Program, x: Entry, y: Entry, z: Entry)
    requires InProgram(prog, x) && InProgram(prog, y) && InProgram(prog, z) && x.mode == Relevant(Given(prog, x))
    requires y.mode == Relevant(Given(prog, y)) && z.mode == Relevant(Given(prog, z))
    ensures Conflict(x.mode, y.mode) <==> !MayOverlap(Given(prog, x), Given(prog, y))
    ensures Conflict(y.mode, z.mode) <==> !MayOverlap(Given(prog, y), Given(prog, z))
    ensures z.mode == {W} <==> WritesOnly(Given(prog, z))
  {
    ConflictByFlags(Given(prog, x), Given(prog, y));
    ConflictByFlags(Given(prog, y), Given(prog, z));
    ClassByFlags(Given(prog, z));
  }

  /** Buffer b of task k ends a group of the accesses to some handle that the program has submitted so far. */
  ghost predicate EndsSomeGroup(prog: Program, s: State, k: nat, b: nat)
    requires At(prog, s)
  {
    exists h: nat, n: nat {:trigger EndsGroup(prog, History(prog, s.k, s.b, h), n, k, b)} ::
      h < |s.handles| && EndsGroup(prog, History(prog, s.k, s.b, h), n, k, b)
  }

  lemma DueIsSomeEnd(prog: Program, s: State, k: nat, b: nat)
    requires LogIsHistory(prog, s)
    ensures Due(s.log, SyncTask(k, b)) <==> EndsSomeGroup(prog, s, k, b)
  {
    if Due(s.log, SyncTask(k, b)) {
      var h: nat, n: nat :| h < |s.log| && DueAt(s.log[h], n, SyncTask(k, b));
      DueIsEnd(prog, s, h, n, k, b);
    }
    if EndsSomeGroup(prog, s, k, b) {
      var h: nat, n: nat :| h < |s.handles| && EndsGroup(prog, History(prog, s.k, s.b, h), n, k, b);
      DueIsEnd(prog, s, h, n, k, b);
      assert DueAt(s.log[h], n, SyncTask(k, b));
    }
  }

  /** In every run, a synchronization task is created for buffer b of task k only if that access ends a group on its
      handle; as long as nothing has been released, if and only if it does. */
  lemma SyncTasksEndGroups(prog: Program, handles: nat, steps: seq<Step>, k: nat, b: nat)
    requires Runs(prog, Initial(handles), steps)
    ensures var s := After(prog, Initial(handles), steps);
      && At(prog, s)
      && (SyncTask(k, b) in s.syncs ==> EndsSomeGroup(prog, s, k, b))
      && ((forall i {:trigger steps[i]} :: 0 <= i < |steps| ==> Keeps(steps[i])) ==>
            (EndsSomeGroup(prog, s, k, b) ==> SyncTask(k, b) in s.syncs))
  {
    var kept := forall i {:trigger steps[i]} :: 0 <= i < |steps| ==> Keeps(steps[i]);
    InitialLog(prog, handles);
    RunKeepsSyncs(prog, Initial(handles), steps, kept);
    DueIsSomeEnd(prog, After(prog, Initial(handles), steps), k, b);
  }
}
