/** The schedule check of tools/starpu_lp2paje.c, over the reals. */
module Schedule {

  /** `struct task`. */
  datatype Task = Task(start: real, stop: real, num: int, worker: nat)

  /** One variable of the linear program: task `num` on worker w, as far as `bar` says. */
  datatype Variable = Variable(num: int, bar: real)

  // ---------------------------------------------------------------- reading the assignment

  ghost predicate Chosen(row: seq<Variable>, w: nat) {
    w < |row| && row[w].bar > 0.5
  }

  /** Worker w is the last one, among the first `upto`, whose variable is set. */
  ghost predicate AssignedTo(row: seq<Variable>, upto: nat, task: Task, w: nat) {
    && w < upto <= |row| && Chosen(row, w) && task.worker == w && task.num == row[w].num
    && forall v: nat {:trigger Chosen(row, v)} :: w < v < upto ==> !Chosen(row, v)
  }

  /** Without such a worker, the task keeps worker 0 and number 0 from `memset`. */
  ghost predicate Assigned(row: seq<Variable>, upto: nat, task: Task) {
    || (exists w: nat {:trigger AssignedTo(row, upto, task, w)} :: AssignedTo(row, upto, task, w))
    || (task.worker == 0 && task.num == 0 && forall v: nat {:trigger Chosen(row, v)} :: v < upto ==> !Chosen(row, v))
  }

  lemma NotChosen(row: seq<Variable>, upto: nat, task: Task)
    requires upto < |row| && Assigned(row, upto, task) && !Chosen(row, upto)
    ensures Assigned(row, upto + 1, task)
  {
    if w: nat :| AssignedTo(row, upto, task, w) {
      assert AssignedTo(row, upto + 1, task, w);
    }
  }

  /** The two loops over tasks, from the last to the first, and workers. Times are untouched. */
  method ReadAssignment(tasks: array<Task>, rows: seq<seq<Variable>>)
    requires tasks.Length == |rows|
    requires forall t :: 0 <= t < tasks.Length ==> tasks[t].worker == 0 && tasks[t].num == 0
    modifies tasks
    ensures forall t {:trigger tasks[t]} :: 0 <= t < tasks.Length ==>
      && Assigned(rows[t], |rows[t]|, tasks[t])
      && tasks[t].start == old(tasks[t].start) && tasks[t].stop == old(tasks[t].stop)
  {
    var t := tasks.Length - 1;
    while t >= 0
      invariant -1 <= t < tasks.Length
      invariant forall u {:trigger tasks[u]} :: t < u < tasks.Length ==> Assigned(rows[u], |rows[u]|, tasks[u])
      invariant forall u {:trigger tasks[u]} :: 0 <= u <= t ==> tasks[u] == old(tasks[u])
      invariant forall u {:trigger tasks[u]} :: 0 <= u < tasks.Length ==>
        tasks[u].start == old(tasks[u].start) && tasks[u].stop == old(tasks[u].stop)
    {
      ghost var others := tasks[..];
      for w := 0 to |rows[t]|
        invariant Assigned(rows[t], w, tasks[t])
        invariant forall u {:trigger tasks[u]} :: 0 <= u < tasks.Length && u != t ==> tasks[u] == others[u]
        invariant tasks[t].start == old(tasks[t].start) && tasks[t].stop == old(tasks[t].stop)
      {
        if rows[t][w].bar > 0.5 {
          tasks[t] := tasks[t].(num := rows[t][w].num, worker := w);
          assert AssignedTo(rows[t], w + 1, tasks[t], w);
        } else {
          NotChosen(rows[t], w, tasks[t]);
        }
      }
      t := t - 1;
    }
  }

  // ---------------------------------------------------------------- the overlap check

  predicate Apart(a: Task, b: Task) {
    a.start >= b.stop || b.start >= a.stop
  }

  /** What the tool reports for the pair (t, u). */
  predicate Reported(tasks: seq<Task>, t: nat, u: nat) {
    t < |tasks| && u < |tasks| && t != u && tasks[t].worker == tasks[u].worker && !Apart(tasks[t], tasks[u])
  }

  /** Each pair once, in the order of the loops. */
  ghost predicate InOrder(reports: seq<(nat, nat)>) {
    forall i, j {:trigger reports[i], reports[j]} :: 0 <= i < j < |reports| ==>
      reports[i].0 < reports[j].0 || (reports[i].0 == reports[j].0 && reports[i].1 < reports[j].1)
  }

  method CheckOverlaps(tasks: array<Task>) returns (reports: seq<(nat, nat)>)
    ensures forall t: nat, u: nat {:trigger (t, u) in reports} :: (t, u) in reports <==> Reported(tasks[..], t, u)
    ensures InOrder(reports)
  {
    reports := [];
    for t := 0 to tasks.Length
      invariant forall i: nat, j: nat {:trigger (i, j) in reports} ::
        (i, j) in reports <==> i < t && Reported(tasks[..], i, j)
      invariant InOrder(reports)
    {
      for u := 0 to tasks.Length
        invariant forall i: nat, j: nat {:trigger (i, j) in reports} ::
          (i, j) in reports <==> (i < t || (i == t && j < u)) && Reported(tasks[..], i, j)
        invariant InOrder(reports)
      {
        if t != u && tasks[t].worker == tasks[u].worker {
          if !(tasks[t].start >= tasks[u].stop || tasks[u].start >= tasks[t].stop) {
            assert forall i {:trigger reports[i]} :: 0 <= i < |reports| ==> (reports[i].0, reports[i].1) in reports;
            reports := reports + [(t, u)];
          }
        }
      }
    }
  }

  ghost predicate Silent(tasks: seq<Task>) {
    forall t: nat, u: nat {:trigger Reported(tasks, t, u)} :: !Reported(tasks, t, u)
  }

  ghost predicate RunsAt(task: Task, x: real) {
    task.start <= x < task.stop
  }

  /** For tasks that take time, a report is exactly a shared instant: the check is neither too strict nor too lax. */
  lemma ReportIsSharedInstant(tasks: seq<Task>, t: nat, u: nat)
    requires t < |tasks| && u < |tasks| && t != u && tasks[t].worker == tasks[u].worker
    requires tasks[t].start < tasks[t].stop && tasks[u].start < tasks[u].stop
    ensures Reported(tasks, t, u) <==> exists x :: RunsAt(tasks[t], x) && RunsAt(tasks[u], x)
  {
    var x := if tasks[t].start >= tasks[u].start then tasks[t].start else tasks[u].start;
    if Reported(tasks, t, u) {
      assert RunsAt(tasks[t], x) && RunsAt(tasks[u], x);
    }
  }

  // ---------------------------------------------------------------- busy time

  function Busy(ts: seq<Task>): (d: real) {
    if ts == [] then 0.0 else (ts[0].stop - ts[0].start) + Busy(ts[1..])
  }

  function OnWorker(ts: seq<Task>, w: nat): (own: seq<Task>) {
    if ts == [] then []
    else if ts[0].worker == w then [ts[0]] + OnWorker(ts[1..], w)
    else OnWorker(ts[1..], w)
  }

  /** Those that end before x, or those that do not. */
  function Side(ts: seq<Task>, x: real, before: bool): (own: seq<Task>)
    ensures |own| <= |ts| && forall a {:trigger a in own} :: a in own ==> a in ts && (a.stop <= x) == before
  {
    if ts == [] then []
    else if (ts[0].stop <= x) == before then [ts[0]] + Side(ts[1..], x, before)
    else Side(ts[1..], x, before)
  }

  lemma {:induction false} SidesShareBusy(ts: seq<Task>, x: real)
    ensures Busy(ts) == Busy(Side(ts, x, true)) + Busy(Side(ts, x, false))
  {
    if ts != [] {
      SidesShareBusy(ts[1..], x);
      var own, rest := Side(ts, x, ts[0].stop <= x), Side(ts[1..], x, ts[0].stop <= x);
      assert own[1..] == rest;
    }
  }

  /** Every task is apart from all later ones in the sequence. */
  ghost predicate Clear(ts: seq<Task>) {
    ts == [] || ((forall a {:trigger a in ts[1..]} :: a in ts[1..] ==> Apart(ts[0], a)) && Clear(ts[1..]))
  }

  lemma {:induction false} SideIsClear(ts: seq<Task>, x: real, before: bool)
    requires Clear(ts)
    ensures Clear(Side(ts, x, before))
  {
    if ts != [] {
      SideIsClear(ts[1..], x, before);
      if (ts[0].stop <= x) == before {
        assert Side(ts, x, before)[1..] == Side(ts[1..], x, before);
      }
    }
  }

  /** Tasks that are apart and lie in an interval take no longer than the interval: the first of them splits the interval
      and the others between its two sides. */
  lemma {:induction false} ClearFits(ts: seq<Task>, from: real, until: real)
    requires Clear(ts) && from <= until
    requires forall a {:trigger a in ts} :: a in ts ==> from <= a.start <= a.stop <= until
    ensures Busy(ts) <= until - from
    decreases |ts|
  {
    if ts != [] {
      var first, rest := ts[0], ts[1..];
      assert first in ts && forall a {:trigger a in rest} :: a in rest ==> a in ts;
      var left, right := Side(rest, first.start, true), Side(rest, first.start, false);
      SideIsClear(rest, first.start, true);
      SideIsClear(rest, first.start, false);
      SidesShareBusy(rest, first.start);
      ClearFits(left, from, first.start);
      ClearFits(right, first.stop, until);
    }
  }

  lemma {:induction false} OwnTasks(ts: seq<Task>, w: nat)
    ensures forall a {:trigger a in OnWorker(ts, w)} :: a in OnWorker(ts, w) ==> a in ts && a.worker == w
  {
    if ts != [] {
      OwnTasks(ts[1..], w);
    }
  }

  lemma {:induction false} SilentIsClear(ts: seq<Task>, w: nat)
    requires Silent(ts)
    ensures Clear(OnWorker(ts, w))
  {
    if ts != [] {
      var rest := ts[1..];
      forall t: nat, u: nat
        ensures !Reported(rest, t, u)
      {
        assert !Reported(ts, t + 1, u + 1);
      }
      SilentIsClear(rest, w);
      OwnTasks(rest, w);
      if ts[0].worker == w {
        assert OnWorker(ts, w)[1..] == OnWorker(rest, w);
        forall a | a in OnWorker(rest, w)
          ensures Apart(ts[0], a)
        {
          var i :| 0 <= i < |rest| && rest[i] == a;
          assert ts[i + 1] == a && !Reported(ts, 0, i + 1);
        }
      }
    }
  }

  ghost predicate Within(ts: seq<Task>, tmax: real) {
    0.0 <= tmax && forall a {:trigger a in ts} :: a in ts ==> 0.0 <= a.start <= a.stop <= tmax
  }

  /** When the tool stays silent, no worker is busy for longer than the schedule lasts. */
  lemma SilentWorkerFits(ts: seq<Task>, tmax: real, w: nat)
    requires Silent(ts) && Within(ts, tmax)
    ensures Busy(OnWorker(ts, w)) <= tmax
  {
    SilentIsClear(ts, w);
    OwnTasks(ts, w);
    ClearFits(OnWorker(ts, w), 0.0, tmax);
  }

  function WorkersBusy(ts: seq<Task>, n: nat): (d: real) {
    if n == 0 then 0.0 else WorkersBusy(ts, n - 1) + Busy(OnWorker(ts, n - 1))
  }

  lemma {:induction false} OneMoreTask(ts: seq<Task>, n: nat)
    requires ts != []
    ensures WorkersBusy(ts, n) ==
            WorkersBusy(ts[1..], n) + (if ts[0].worker < n then ts[0].stop - ts[0].start else 0.0)
  {
    if n != 0 {
      OneMoreTask(ts, n - 1);
      var own := OnWorker(ts, n - 1);
      assert ts[0].worker == n - 1 ==> own[1..] == OnWorker(ts[1..], n - 1);
    }
  }

  /** Work is shared between the workers without loss. */
  lemma {:induction false} WorkConserved(ts: seq<Task>, n: nat)
    requires forall a {:trigger a in ts} :: a in ts ==> a.worker < n
    ensures Busy(ts) == WorkersBusy(ts, n)
  {
    if ts == [] {
      NoWork(n);
    } else {
      assert ts[0] in ts && forall a {:trigger a in ts[1..]} :: a in ts[1..] ==> a in ts;
      WorkConserved(ts[1..], n);
      OneMoreTask(ts, n);
    }
  }

  lemma {:induction false} NoWork(n: nat)
    ensures WorkersBusy([], n) == 0.0
  {
    if n != 0 {
      NoWork(n - 1);
    }
  }

  lemma {:induction false} WorkersFit(ts: seq<Task>, tmax: real, n: nat)
    requires Silent(ts) && Within(ts, tmax)
    ensures WorkersBusy(ts, n) <= n as real * tmax
  {
    if n != 0 {
      WorkersFit(ts, tmax, n - 1);
      SilentWorkerFits(ts, tmax, n - 1);
      assert n as real * tmax == (n - 1) as real * tmax + tmax;
    }
  }

  /** The area bound: when the tool stays silent, all the work fits into nw workers over the duration tmax. */
  lemma SilentScheduleFits(ts: seq<Task>, tmax: real, nw: nat)
    requires Silent(ts) && Within(ts, tmax) && forall a {:trigger a in ts} :: a in ts ==> a.worker < nw
    ensures Busy(ts) <= nw as real * tmax
  {
    WorkConserved(ts, nw);
    WorkersFit(ts, tmax, nw);
  }

  /** At any instant, a worker of a silent schedule runs at most one task. */
  lemma OneTaskAtATime(ts: seq<Task>, t: nat, u: nat, x: real)
    requires Silent(ts) && t < |ts| && u < |ts| && ts[t].worker == ts[u].worker
    requires RunsAt(ts[t], x) && RunsAt(ts[u], x)
    ensures t == u
  {
    assert !Reported(ts, t, u);
  }
}
