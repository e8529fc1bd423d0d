/** The record that the machine keeps is the list of processed accesses of the program. */
module AccessHistory {
  import opened ImplicitDeps
  import opened HandleOrder
  import opened TaskGraph

  lemma {:induction false} TaskHistoryEntries(accs: seq<Access>, k: nat, b: nat, h: nat)
    requires b <= |accs|
    ensures forall en {:trigger en in TaskHistory(accs, k, b, h)} :: en in TaskHistory(accs, k, b, h) <==>
      en.k == k && en.b < b && Processed(accs, en.b) && accs[en.b].handle == h && en.mode == Relevant(accs[en.b].mode)
    decreases b
  {
    if b != 0 {
      TaskHistoryEntries(accs, k, b - 1, h);
    }
  }

  /** The history holds exactly the processed accesses so far. */
  lemma {:induction false} HistoryEntries(prog: Program, k: nat, b: nat, h: nat, en: Entry)
    requires k <= |prog| && (if k < |prog| then b <= |prog[k]| else b == 0)
    ensures en in History(prog, k, b, h) <==>
      && (en.k < k || (en.k == k && en.b < b)) && en.k < |prog| && en.b < |prog[en.k]|
      && Processed(prog[en.k], en.b) && prog[en.k][en.b].handle == h && en.mode == Relevant(prog[en.k][en.b].mode)
    decreases k
  {
    if k != 0 {
      HistoryEntries(prog, k - 1, |prog[k - 1]|, h, en);
    }
    if k < |prog| {
      TaskHistoryEntries(prog[k], k, b, h);
    }
  }

  lemma HistoryTasks(prog: Program, k: nat, b: nat, h: nat)
    requires k <= |prog| && (if k < |prog| then b <= |prog[k]| else b == 0)
    ensures forall n {:trigger History(prog, k, b, h)[n]} :: 0 <= n < |History(prog, k, b, h)| ==>
      History(prog, k, b, h)[n].k <= k && (b == 0 ==> History(prog, k, b, h)[n].k < k)
  {
    var es := History(prog, k, b, h);
    forall n | 0 <= n < |es|
      ensures es[n].k <= k && (b == 0 ==> es[n].k < k)
    {
      HistoryEntries(prog, k, b, h, es[n]);
    }
  }

  lemma HistoryNextTask(prog: Program, k: nat, h: nat)
    requires k < |prog|
    ensures History(prog, k + 1, 0, h) == History(prog, k, |prog[k]|, h)
  {
    assert k + 1 < |prog| ==> TaskHistory(prog[k + 1], k + 1, 0, h) == [];
  }

  lemma {:induction false} OwnClassesOfSuffix(a: seq<Entry>, b: seq<Entry>, k: nat)
    requires forall n {:trigger a[n]} :: 0 <= n < |a| ==> a[n].k < k
    ensures OwnClasses(a + b, k) == OwnClasses(b, k)
    decreases |b|
  {
    if b == [] {
      assert a + b == a;
      NoOwnClasses(a, k);
    } else {
      assert (a + b)[..|a + b| - 1] == a + b[..|b| - 1];
      OwnClassesOfSuffix(a, b[..|b| - 1], k);
    }
  }

  lemma {:induction false} TaskHistoryClasses(accs: seq<Access>, k: nat, b: nat, h: nat)
    requires b <= |accs|
    ensures OwnClasses(TaskHistory(accs, k, b, h), k) == TaskClasses(accs, b, h)
    decreases b
  {
    if b != 0 {
      TaskHistoryClasses(accs, k, b - 1, h);
      var es := TaskHistory(accs, k, b - 1, h);
      if Processed(accs, b - 1) && accs[b - 1].handle == h {
        assert TaskHistory(accs, k, b, h) == es + [Entry(k, b - 1, Relevant(accs[b - 1].mode))];
        OwnClassesAppend(es, Entry(k, b - 1, Relevant(accs[b - 1].mode)));
      } else {
        assert TaskHistory(accs, k, b, h) == es;
      }
    }
  }

  /** The classes that matter for the hazard are those of the task alone. */
  lemma HistoryOwnClasses(prog: Program, k: nat, b: nat, h: nat)
    requires k < |prog| && b <= |prog[k]|
    ensures OwnClasses(History(prog, k, b, h), k) == TaskClasses(prog[k], b, h)
  {
    var before := HistorySplit(prog, k, b, h);
    OwnClassesOfSuffix(before, TaskHistory(prog[k], k, b, h), k);
    TaskHistoryClasses(prog[k], k, b, h);
  }

  lemma HistorySplit(prog: Program, k: nat, b: nat, h: nat) returns (before: seq<Entry>)
    requires k < |prog| && b <= |prog[k]|
    ensures History(prog, k, b, h) == before + TaskHistory(prog[k], k, b, h)
    ensures forall n {:trigger before[n]} :: 0 <= n < |before| ==> before[n].k < k
  {
    if k == 0 {
      before := [];
    } else {
      before := History(prog, k - 1, |prog[k - 1]|, h);
      HistoryTasks(prog, k - 1, |prog[k - 1]|, h);
    }
  }

  lemma HistoryBuffer(prog: Program, k: nat, b: nat, h: nat)
    requires k < |prog| && b < |prog[k]|
    ensures History(prog, k, b + 1, h) == History(prog, k, b, h) + TaskEntry(prog[k], k, b, h)
  {
  }

  ghost predicate At(prog: Program, s: State) {
    s.k <= |prog| && if s.k < |prog| then s.b <= |prog[s.k]| else s.b == 0
  }

  ghost predicate LogIsHistory(prog: Program, s: State) {
    && At(prog, s) && |s.log| == |s.handles|
    && forall h: nat {:trigger s.log[h]} :: h < |s.log| ==> s.log[h] == History(prog, s.k, s.b, h)
  }

  lemma NextKeepsLog(prog: Program, s: State, step: Step)
    requires LogIsHistory(prog, s) && Enabled(prog, s, step)
    ensures LogIsHistory(prog, Next(prog, s, step))
  {
    match step {
      case Buffer => BufferKeepsHistory(prog, s);
      case Submitted => SubmittedKeepsHistory(prog, s);
      case _ => OthersKeepHistory(prog, s, step);
    }
  }

  lemma BufferKeepsHistory(prog: Program, s: State)
    requires LogIsHistory(prog, s) && Enabled(prog, s, Buffer)
    ensures LogIsHistory(prog, Next(prog, s, Buffer))
  {
    var s' := Next(prog, s, Buffer);
    forall h: nat | h < |s'.log|
      ensures s'.log[h] == History(prog, s'.k, s'.b, h)
    {
      BufferKeepsLog(prog, s, h);
    }
  }

  lemma SubmittedKeepsHistory(prog: Program, s: State)
    requires LogIsHistory(prog, s) && Enabled(prog, s, Submitted)
    ensures LogIsHistory(prog, Next(prog, s, Submitted))
  {
    forall h: nat | h < |s.log|
      ensures s.log[h] == History(prog, s.k + 1, 0, h)
    {
      HistoryNextTask(prog, s.k, h);
    }
  }

  lemma OthersKeepHistory(prog: Program, s: State, step: Step)
    requires LogIsHistory(prog, s) && Enabled(prog, s, step) && !step.Buffer? && !step.Submitted?
    ensures LogIsHistory(prog, Next(prog, s, step))
  {
    var s' := Next(prog, s, step);
    assert s'.log == s.log && s'.k == s.k && s'.b == s.b && |s'.handles| == |s.handles|;
  }

  lemma BufferKeepsLog(prog: Program, s: State, h: nat)
    requires Enabled(prog, s, Buffer) && h < |s.log| && LogIsHistory(prog, s)
    ensures Next(prog, s, Buffer).log[h] == History(prog, s.k, s.b + 1, h)
  {
    HistoryBuffer(prog, s.k, s.b, h);
    assert s.log[h] == History(prog, s.k, s.b, h) && s.log[h] + [] == s.log[h];
  }

  lemma InitialLog(prog: Program, handles: nat)
    ensures LogIsHistory(prog, Initial(handles))
  {
  }
}
