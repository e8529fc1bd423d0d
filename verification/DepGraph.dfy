/** Reachability in the dependency graph. Edges go from lower to higher ranks, so paths are finite by construction. */
module DepGraph {
  import opened ImplicitDeps

  /** The order in which jobs come into being: the synchronization tasks of task k, then task k. */
  function Rank(j: Job): (r: nat) {
    match j
    case Task(k) => 2 * k + 1
    case SyncTask(k, _) => 2 * k
  }

  /** There is a path from x to y: y cannot start before x has finished. */
  ghost predicate Before(e: set<Edge>, x: Job, y: Job)
    decreases Rank(y)
  {
    x == y || exists z {:trigger Before(e, x, z)} :: (z, y) in e && Rank(z) < Rank(y) && Before(e, x, z)
  }

  lemma BeforeStep(e: set<Edge>, x: Job, z: Job, y: Job)
    requires Before(e, x, z) && (z, y) in e && Rank(z) < Rank(y)
    ensures Before(e, x, y)
  {
  }

  lemma {:induction false} BeforeTrans(e: set<Edge>, x: Job, y: Job, z: Job)
    requires Before(e, x, y) && Before(e, y, z)
    ensures Before(e, x, z)
    decreases Rank(z)
  {
    if y != z {
      var w :| (w, z) in e && Rank(w) < Rank(z) && Before(e, y, w);
      BeforeTrans(e, x, y, w);
    }
  }

  lemma {:induction false} BeforeMonotone(e: set<Edge>, e': set<Edge>, x: Job, y: Job)
    requires e <= e' && Before(e, x, y)
    ensures Before(e', x, y)
    decreases Rank(y)
  {
    if x != y {
      var z :| (z, y) in e && Rank(z) < Rank(y) && Before(e, x, z);
      BeforeMonotone(e, e', x, z);
    }
  }

  /** A finished job has only finished predecessors, along whole paths. */
  ghost predicate Settled(e: set<Edge>, done: set<Job>) {
    forall x, y {:trigger (x, y) in e} :: (x, y) in e && y in done ==> x in done
  }

  lemma {:induction false} SettledPath(e: set<Edge>, done: set<Job>, x: Job, y: Job)
    requires Settled(e, done) && Before(e, x, y) && y in done
    ensures x in done
    decreases Rank(y)
  {
    if x != y {
      var z :| (z, y) in e && Rank(z) < Rank(y) && Before(e, x, z);
      SettledPath(e, done, x, z);
    }
  }
}
