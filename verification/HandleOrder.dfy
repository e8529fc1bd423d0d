/** What the operations on one handle guarantee about the accesses submitted to it. */
module HandleOrder {
  import opened Wrappers
  import opened ImplicitDeps
  import opened DepGraph

  /** One access that the detection has processed: buffer b of task k, in this mode. */
  datatype Entry = Entry(k: nat, b: nat, mode: Mode)

  /** Two accesses to one handle conflict unless they belong to the same concurrent class. */
  predicate Conflict(m: Mode, m': Mode) {
    !(ClassOf(m) == ClassOf(m') && ClassOf(m) != Exclusive)
  }

  /** On the flags as submitted: the detection keeps apart exactly what may not overlap. */
  lemma ConflictByFlags(m: Mode, m': Mode)
    ensures Conflict(Relevant(m), Relevant(m')) <==> !MayOverlap(m, m')
  {
    ClassByFlags(m);
    ClassByFlags(m');
  }

  /** The classes of the accesses of task k, in order. */
  function OwnClasses(h: seq<Entry>, k: nat): (cs: seq<Class>) {
    if h == [] then []
    else OwnClasses(h[..|h| - 1], k) + (if h[|h| - 1].k == k then [ClassOf(h[|h| - 1].mode)] else [])
  }

  /** The one way in which a task can slip out of the ordering: its accesses to a handle end with a block of one shared
      class, right after accesses of another shared class that either open its accesses to the handle (so that they may
      have joined a group of other tasks) or are at least two. */
  ghost predicate HazardAt(cs: seq<Class>, i: nat) {
    && 0 < i < |cs|
    && cs[i - 1] != cs[i] && cs[i - 1] != Exclusive && cs[i] != Exclusive
    && (forall j {:trigger cs[j]} :: i <= j < |cs| ==> cs[j] == cs[i])
    && ((forall j {:trigger cs[j]} :: 0 <= j < i ==> cs[j] == cs[i - 1]) || (2 <= i && cs[i - 2] == cs[i - 1]))
  }

  ghost predicate Hazard(cs: seq<Class>) {
    exists i: nat {:trigger HazardAt(cs, i)} :: HazardAt(cs, i)
  }

  // ---------------------------------------------------------------- the invariant of one handle

  /** Task i has finished, or the last synchronization job waits for it. */
  ghost predicate Waited(e: set<Edge>, done: set<Job>, hs: HandleState, i: nat) {
    Task(i) in done || (hs.lastSync.Some? && Before(e, Task(i), hs.lastSync.value))
  }

  /** The access is one of the group that the next conflicting access will wait for. */
  ghost predicate InGroup(e: set<Edge>, hs: HandleState, en: Entry) {
    exists x {:trigger x in hs.accessors} :: x in hs.accessors &&
      if ClassOf(hs.lastMode) == Exclusive then Before(e, Task(en.k), Task(x.k))
      else x.k == en.k && ClassOf(en.mode) == ClassOf(hs.lastMode)
  }

  /** Every access so far is accounted for: whatever conflicting access comes next will wait for it. */
  ghost predicate Full(e: set<Edge>, done: set<Job>, hs: HandleState, h: seq<Entry>) {
    forall n {:trigger h[n]} :: 0 <= n < |h| ==> Waited(e, done, hs, h[n].k) || InGroup(e, hs, h[n])
  }

  /** While task k is being submitted: the accesses so far come before task k, which alone is in the list. */
  ghost predicate Pending(e: set<Edge>, done: set<Job>, hs: HandleState, h: seq<Entry>, k: nat) {
    && hs.accessors != []
    && (forall x {:trigger x in hs.accessors} :: x in hs.accessors ==> x.k == k)
    && (forall n {:trigger h[n]} :: 0 <= n < |h| ==> Waited(e, done, hs, h[n].k) || Before(e, Task(h[n].k), Task(k)))
  }

  function OwnSlots(xs: seq<Slot>, k: nat): (n: nat) {
    if xs == [] then 0 else (if xs[0].k == k then 1 else 0) + OwnSlots(xs[1..], k)
  }

  /** How the handle looks while task k is being submitted, `cs` being the classes of its accesses so far. */
  ghost predicate Shaped(e: set<Edge>, hs: HandleState, cs: seq<Class>, k: nat) {
    && (hs.lastSync.Some? ==> Rank(hs.lastSync.value) <= Rank(Task(k)))
    && (forall x {:trigger x in hs.accessors} :: x in hs.accessors ==>
          x.k <= k && (hs.lastSync.Some? ==> Before(e, hs.lastSync.value, Task(x.k))))
    && (ClassOf(hs.lastMode) == Exclusive ==> |hs.accessors| <= 1)
    && (cs != [] ==> cs[|cs| - 1] == ClassOf(hs.lastMode))
    && OwnSlots(hs.accessors, k) <= |cs|
    && (forall j {:trigger cs[j]} :: |cs| - OwnSlots(hs.accessors, k) <= j < |cs| ==> cs[j] == ClassOf(hs.lastMode))
    && ((exists x {:trigger x in hs.accessors} :: x in hs.accessors && x.k != k) ==>
          forall j {:trigger cs[j]} :: 0 <= j < |cs| ==> cs[j] == ClassOf(hs.lastMode))
  }

  ghost predicate Accounted(e: set<Edge>, done: set<Job>, hs: HandleState, h: seq<Entry>, k: nat) {
    Full(e, done, hs, h) || (Pending(e, done, hs, h, k) && Hazard(OwnClasses(h, k)))
  }

  ghost predicate HandleInv(e: set<Edge>, done: set<Job>, hs: HandleState, h: seq<Entry>, k: nat) {
    Shaped(e, hs, OwnClasses(h, k), k) && Accounted(e, done, hs, h, k)
  }

  // ---------------------------------------------------------------- monotonicity

  lemma WaitedMonotone(e: set<Edge>, done: set<Job>, e': set<Edge>, done': set<Job>, hs: HandleState, i: nat)
    requires e <= e' && done <= done' && Waited(e, done, hs, i)
    ensures Waited(e', done', hs, i)
  {
    if Task(i) !in done {
      BeforeMonotone(e, e', Task(i), hs.lastSync.value);
    }
  }

  lemma InGroupMonotone(e: set<Edge>, e': set<Edge>, hs: HandleState, en: Entry)
    requires e <= e' && InGroup(e, hs, en)
    ensures InGroup(e', hs, en)
  {
    var x :| x in hs.accessors && (if ClassOf(hs.lastMode) == Exclusive then Before(e, Task(en.k), Task(x.k))
      else x.k == en.k && ClassOf(en.mode) == ClassOf(hs.lastMode));
    if ClassOf(hs.lastMode) == Exclusive {
      BeforeMonotone(e, e', Task(en.k), Task(x.k));
    }
  }

  lemma FullMonotone(e: set<Edge>, done: set<Job>, e': set<Edge>, done': set<Job>, hs: HandleState, h: seq<Entry>)
    requires e <= e' && done <= done' && Full(e, done, hs, h)
    ensures Full(e', done', hs, h)
  {
    forall n | 0 <= n < |h|
      ensures Waited(e', done', hs, h[n].k) || InGroup(e', hs, h[n])
    {
      if Waited(e, done, hs, h[n].k) {
        WaitedMonotone(e, done, e', done', hs, h[n].k);
      } else {
        InGroupMonotone(e, e', hs, h[n]);
      }
    }
  }

  lemma PendingMonotone(
    e: set<Edge>, done: set<Job>, e': set<Edge>, done': set<Job>, hs: HandleState, h: seq<Entry>, k: nat)
    requires e <= e' && done <= done' && Pending(e, done, hs, h, k)
    ensures Pending(e', done', hs, h, k)
  {
    forall n | 0 <= n < |h|
      ensures Waited(e', done', hs, h[n].k) || Before(e', Task(h[n].k), Task(k))
    {
      if Waited(e, done, hs, h[n].k) {
        WaitedMonotone(e, done, e', done', hs, h[n].k);
      } else {
        BeforeMonotone(e, e', Task(h[n].k), Task(k));
      }
    }
  }

  lemma ShapedMonotone(e: set<Edge>, e': set<Edge>, hs: HandleState, cs: seq<Class>, k: nat)
    requires e <= e' && Shaped(e, hs, cs, k)
    ensures Shaped(e', hs, cs, k)
  {
    forall x | x in hs.accessors && hs.lastSync.Some?
      ensures Before(e', hs.lastSync.value, Task(x.k))
    {
      BeforeMonotone(e, e', hs.lastSync.value, Task(x.k));
    }
  }

  /** More edges and more finished jobs keep the invariant. */
  lemma HandleInvMonotone(
    e: set<Edge>, done: set<Job>, e': set<Edge>, done': set<Job>, hs: HandleState, h: seq<Entry>, k: nat)
    requires e <= e' && done <= done' && HandleInv(e, done, hs, h, k)
    ensures HandleInv(e', done', hs, h, k)
  {
    ShapedMonotone(e, e', hs, OwnClasses(h, k), k);
    if Full(e, done, hs, h) {
      FullMonotone(e, done, e', done', hs, h);
    } else {
      PendingMonotone(e, done, e', done', hs, h, k);
    }
  }

  // ---------------------------------------------------------------- what processing an access does

  lemma OwnClassesAppend(h: seq<Entry>, en: Entry)
    ensures OwnClasses(h + [en], en.k) == OwnClasses(h, en.k) + [ClassOf(en.mode)]
  {
    assert (h + [en])[..|h|] == h;
  }

  lemma {:induction false} OwnSlotsBounds(xs: seq<Slot>, k: nat)
    ensures OwnSlots(xs, k) <= |xs|
    ensures (forall x {:trigger x in xs} :: x in xs ==> x.k == k) ==> OwnSlots(xs, k) == |xs|
    ensures (forall x {:trigger x in xs} :: x in xs ==> x.k != k) <==> OwnSlots(xs, k) == 0
  {
    if xs != [] {
      OwnSlotsBounds(xs[1..], k);
      assert xs[0] in xs;
      assert forall x {:trigger x in xs[1..]} :: x in xs[1..] ==> x in xs;
      assert forall x {:trigger x in xs} :: x in xs ==> x == xs[0] || x in xs[1..];
    }
  }

  lemma ShapedDetect(e: set<Edge>, hs: HandleState, cs: seq<Class>, k: nat, b: nat, mode: Mode)
    requires Shaped(e, hs, cs, k)
    ensures var o := Detect(hs, k, b, mode);
      Shaped(e + o.edges, o.hs, cs + [ClassOf(mode)], k)
  {
    ConcurrentByClass(mode, hs.lastMode);
    if Concurrent(mode, hs.lastMode) {
      ShapedJoin(e, hs, cs, k, b, mode);
    } else {
      ShapedAnew(e, hs, cs, k, b, mode);
    }
  }

  lemma ShapedJoin(e: set<Edge>, hs: HandleState, cs: seq<Class>, k: nat, b: nat, mode: Mode)
    requires Shaped(e, hs, cs, k) && Concurrent(mode, hs.lastMode)
    ensures var o := Detect(hs, k, b, mode);
      Shaped(e + o.edges, o.hs, cs + [ClassOf(mode)], k)
  {
    var o := Detect(hs, k, b, mode);
    var e' := e + o.edges;
    ConcurrentByClass(mode, hs.lastMode);
    ShapedMonotone(e, e', hs, cs, k);
    if hs.lastSync.Some? && hs.lastSync.value != Task(k) {
      BeforeStep(e', hs.lastSync.value, hs.lastSync.value, Task(k));
    }
    assert o.hs.accessors[1..] == hs.accessors;
  }

  lemma ShapedAnew(e: set<Edge>, hs: HandleState, cs: seq<Class>, k: nat, b: nat, mode: Mode)
    requires Shaped(e, hs, cs, k) && !Concurrent(mode, hs.lastMode)
    ensures var o := Detect(hs, k, b, mode);
      Shaped(e + o.edges, o.hs, cs + [ClassOf(mode)], k)
  {
    var o := Detect(hs, k, b, mode);
    var e' := e + o.edges;
    assert |hs.accessors| == 1 ==> hs.accessors[0] in hs.accessors;
    if o.hs.lastSync.Some? && o.hs.lastSync.value != Task(k) {
      assert (o.hs.lastSync.value, Task(k)) in e';
      BeforeStep(e', o.hs.lastSync.value, o.hs.lastSync.value, Task(k));
    }
    assert o.hs.accessors == [] || o.hs.accessors == [Slot(k, b)];
  }

  /** How an access of the past is reached from the accessors in the list. */
  ghost predicate Reaches(e: set<Edge>, done: set<Job>, acc: seq<Slot>, i: nat) {
    || Task(i) in done
    || (forall x {:trigger x in acc} :: x in acc ==> Before(e, Task(i), Task(x.k)))
    || (exists x {:trigger x in acc} :: x in acc && x.k == i)
  }

  lemma ReachedBy(e: set<Edge>, done: set<Job>, acc: seq<Slot>, i: nat) returns (x: Slot)
    requires Reaches(e, done, acc, i) && Task(i) !in done && acc != []
    ensures x in acc && Before(e, Task(i), Task(x.k))
  {
    x := acc[0];
    assert x in acc;
    if exists y {:trigger y in acc} :: y in acc && y.k == i {
      x :| x in acc && x.k == i;
    }
  }

  lemma AccessorsReached(e: set<Edge>, done: set<Job>, hs: HandleState, h: seq<Entry>, k: nat, n: nat)
    requires HandleInv(e, done, hs, h, k) && n < |h|
    ensures Reaches(e, done, hs.accessors, h[n].k)
  {
    var i := h[n].k;
    if Waited(e, done, hs, i) {
      if Task(i) !in done {
        forall x | x in hs.accessors
          ensures Before(e, Task(i), Task(x.k))
        {
          BeforeTrans(e, Task(i), hs.lastSync.value, Task(x.k));
        }
      }
    } else if Full(e, done, hs, h) {
      assert InGroup(e, hs, h[n]);
      if ClassOf(hs.lastMode) == Exclusive {
        var x :| x in hs.accessors && Before(e, Task(i), Task(x.k));
        assert hs.accessors == [x];
      }
    } else {
      assert Before(e, Task(i), Task(k));
    }
  }

  /** Everything before task k: each past access has finished or task k waits for it. */
  ghost predicate AllBefore(e: set<Edge>, done: set<Job>, h: seq<Entry>, k: nat) {
    forall n {:trigger h[n]} :: 0 <= n < |h| ==> Task(h[n].k) in done || Before(e, Task(h[n].k), Task(k))
  }

  /** An access that joins the current group. */
  lemma JoinKeepsInv(e: set<Edge>, done: set<Job>, hs: HandleState, h: seq<Entry>, k: nat, b: nat, mode: Mode)
    requires HandleInv(e, done, hs, h, k) && Concurrent(mode, hs.lastMode)
    ensures var o := Detect(hs, k, b, mode);
      HandleInv(e + o.edges, done, o.hs, h + [Entry(k, b, mode)], k)
  {
    var o, en := Detect(hs, k, b, mode), Entry(k, b, mode);
    var e', h' := e + o.edges, h + [en];
    var cs := OwnClasses(h, k);
    ConcurrentByClass(mode, hs.lastMode);
    OwnClassesAppend(h, en);
    HandleInvMonotone(e, done, e', done, hs, h, k);
    ShapedDetect(e, hs, cs, k, b, mode);
    assert o.hs.accessors[1..] == hs.accessors;
    assert Slot(k, b) in o.hs.accessors;
    if Full(e', done, hs, h) {
      forall n | 0 <= n < |h'|
        ensures Waited(e', done, o.hs, h'[n].k) || InGroup(e', o.hs, h'[n])
      {
        if n < |h| {
          assert h'[n] == h[n];
          assert Waited(e', done, hs, h[n].k) || InGroup(e', hs, h[n]);
          if !Waited(e', done, hs, h[n].k) {
            var x :| x in hs.accessors && x.k == h[n].k && ClassOf(h[n].mode) == ClassOf(hs.lastMode);
            assert x in o.hs.accessors;
          }
        }
      }
    } else {
      HazardExtends(cs, ClassOf(mode));
      forall n | 0 <= n < |h'|
        ensures Waited(e', done, o.hs, h'[n].k) || Before(e', Task(h'[n].k), Task(k))
      {
        if n < |h| {
          assert h'[n] == h[n];
        }
      }
    }
  }

  lemma HazardExtends(cs: seq<Class>, c: Class)
    requires Hazard(cs) && c == cs[|cs| - 1]
    ensures Hazard(cs + [c])
  {
    var i: nat :| HazardAt(cs, i);
    assert HazardAt(cs + [c], i);
  }

  /** A write-only access that serves as the synchronization job itself. */
  lemma ServeKeepsInv(e: set<Edge>, done: set<Job>, hs: HandleState, h: seq<Entry>, k: nat, b: nat, mode: Mode)
    requires HandleInv(e, done, hs, h, k)
    requires !Concurrent(mode, hs.lastMode) && |hs.accessors| >= 2 && mode == {W}
    ensures var o := Detect(hs, k, b, mode);
      && HandleInv(e + o.edges, done, o.hs, h + [Entry(k, b, mode)], k)
      && AllBefore(e + o.edges, done, h, k)
  {
    var o, en := Detect(hs, k, b, mode), Entry(k, b, mode);
    var e', h' := e + o.edges, h + [en];
    OwnClassesAppend(h, en);
    ShapedDetect(e, hs, OwnClasses(h, k), k, b, mode);
    forall n | 0 <= n < |h|
      ensures Task(h[n].k) in done || Before(e', Task(h[n].k), Task(k))
    {
      AccessorsReached(e, done, hs, h, k, n);
      if Task(h[n].k) !in done {
        var x := ReachedBy(e, done, hs.accessors, h[n].k);
        BeforeMonotone(e, e', Task(h[n].k), Task(x.k));
        if x.k != k {
          assert (Task(x.k), Task(k)) in o.edges;
          BeforeStep(e', Task(h[n].k), Task(x.k), Task(k));
        }
      }
    }
    forall n | 0 <= n < |h'|
      ensures Waited(e', done, o.hs, h'[n].k)
    {
      if n < |h| {
        assert h'[n] == h[n];
      }
    }
  }

  /** An access that takes over from at most one accessor. */
  lemma TakeOverKeepsInv(e: set<Edge>, done: set<Job>, hs: HandleState, h: seq<Entry>, k: nat, b: nat, mode: Mode)
    requires HandleInv(e, done, hs, h, k)
    requires !Concurrent(mode, hs.lastMode) && |hs.accessors| < 2
    ensures var o := Detect(hs, k, b, mode);
      && HandleInv(e + o.edges, done, o.hs, h + [Entry(k, b, mode)], k)
      && AllBefore(e + o.edges, done, h, k)
  {
    var o, en := Detect(hs, k, b, mode), Entry(k, b, mode);
    var e', h' := e + o.edges, h + [en];
    OwnClassesAppend(h, en);
    ShapedDetect(e, hs, OwnClasses(h, k), k, b, mode);
    assert |hs.accessors| == 1 ==> hs.accessors[0] in hs.accessors;
    assert Slot(k, b) in o.hs.accessors;
    forall n | 0 <= n < |h|
      ensures Waited(e', done, o.hs, h[n].k)
      ensures Task(h[n].k) in done || Before(e', Task(h[n].k), Task(k))
    {
      AccessorsReached(e, done, hs, h, k, n);
      if Task(h[n].k) !in done {
        if |hs.accessors| == 1 {
          var x := hs.accessors[0];
          assert Before(e, Task(h[n].k), Task(x.k));
        } else {
          assert Waited(e, done, hs, h[n].k);
        }
        BeforeMonotone(e, e', Task(h[n].k), o.hs.lastSync.value);
        BeforeTrans(e', Task(h[n].k), o.hs.lastSync.value, Task(k));
      }
    }
    forall n | 0 <= n < |h'|
      ensures Waited(e', done, o.hs, h'[n].k) || InGroup(e', o.hs, h'[n])
    {
      if n < |h| {
        assert h'[n] == h[n];
      }
    }
  }

  /** Where the past accesses stand once a synchronization task has been created in front of task k: it waits for them,
      unless they are only reached through task k's own slots, which it ignores. */
  lemma SyncReached(e: set<Edge>, done: set<Job>, hs: HandleState, h: seq<Entry>, k: nat, b: nat, mode: Mode, n: nat)
    requires HandleInv(e, done, hs, h, k) && n < |h|
    requires !Concurrent(mode, hs.lastMode) && |hs.accessors| >= 2 && mode != {W}
    ensures var e' := e + Detect(hs, k, b, mode).edges;
      && (Task(h[n].k) in done || Before(e', Task(h[n].k), Task(k)))
      && (Task(h[n].k) in done || Before(e', Task(h[n].k), SyncTask(k, b)) || 0 < OwnSlots(hs.accessors, k))
  {
    var o := Detect(hs, k, b, mode);
    var e', i, sync := e + o.edges, h[n].k, SyncTask(k, b);
    AccessorsReached(e, done, hs, h, k, n);
    OwnSlotsBounds(hs.accessors, k);
    assert (sync, Task(k)) in o.edges;
    if Task(i) !in done {
      var x := ReachedBy(e, done, hs.accessors, i);
      BeforeMonotone(e, e', Task(i), Task(x.k));
      if x.k != k {
        assert (Task(x.k), sync) in o.edges;
        BeforeStep(e', Task(i), Task(x.k), sync);
        BeforeStep(e', Task(i), sync, Task(k));
      }
    }
  }

  /** The second shared class right after a group that task k shares with others, or that it alone entered twice. */
  lemma HazardArises(e: set<Edge>, hs: HandleState, cs: seq<Class>, k: nat, c: Class)
    requires Shaped(e, hs, cs, k) && |hs.accessors| >= 2 && 0 < OwnSlots(hs.accessors, k)
    requires c != Exclusive && c != ClassOf(hs.lastMode)
    ensures Hazard(cs + [c])
  {
    var cs' := cs + [c];
    OwnSlotsBounds(hs.accessors, k);
    assert cs[|cs| - 1] == ClassOf(hs.lastMode);
    if forall x {:trigger x in hs.accessors} :: x in hs.accessors ==> x.k == k {
      assert cs[|cs| - 2] == ClassOf(hs.lastMode);
    }
    assert HazardAt(cs', |cs|);
  }

  /** An access that needs a fresh synchronization task in front of it. */
  lemma SyncKeepsInv(e: set<Edge>, done: set<Job>, hs: HandleState, h: seq<Entry>, k: nat, b: nat, mode: Mode)
    requires HandleInv(e, done, hs, h, k)
    requires !Concurrent(mode, hs.lastMode) && |hs.accessors| >= 2 && mode != {W}
    ensures var o := Detect(hs, k, b, mode);
      && HandleInv(e + o.edges, done, o.hs, h + [Entry(k, b, mode)], k)
      && AllBefore(e + o.edges, done, h, k)
  {
    var o, en := Detect(hs, k, b, mode), Entry(k, b, mode);
    var e', h', cs := e + o.edges, h + [en], OwnClasses(h, k);
    OwnClassesAppend(h, en);
    ConcurrentByClass(mode, hs.lastMode);
    ShapedDetect(e, hs, cs, k, b, mode);
    forall n | 0 <= n < |h|
      ensures Task(h[n].k) in done || Before(e', Task(h[n].k), Task(k))
      ensures Waited(e', done, o.hs, h[n].k) || 0 < OwnSlots(hs.accessors, k)
    {
      SyncReached(e, done, hs, h, k, b, mode, n);
    }
    assert Slot(k, b) in o.hs.accessors;
    assert forall n {:trigger h'[n]} :: 0 <= n < |h'| ==> n == |h| || h'[n] == h[n];
    if OwnSlots(hs.accessors, k) == 0 || ClassOf(mode) == Exclusive {
      forall n | 0 <= n < |h'|
        ensures Waited(e', done, o.hs, h'[n].k) || InGroup(e', o.hs, h'[n])
      {
        assert n == |h| ==> Before(e', Task(k), Task(k));
      }
    } else {
      HazardArises(e, hs, cs, k, ClassOf(mode));
      forall n | 0 <= n < |h'|
        ensures Waited(e', done, o.hs, h'[n].k) || Before(e', Task(h'[n].k), Task(k))
      {
        assert n == |h| ==> Before(e', Task(k), Task(k));
      }
      assert Pending(e', done, o.hs, h', k);
    }
  }

  /** Processing any access keeps the invariant, and makes task k wait for every conflicting access of an earlier task
      that has not finished. */
  lemma DetectOrders(e: set<Edge>, done: set<Job>, hs: HandleState, h: seq<Entry>, k: nat, b: nat, mode: Mode)
    requires HandleInv(e, done, hs, h, k)
    ensures var o := Detect(hs, k, b, mode);
      && HandleInv(e + o.edges, done, o.hs, h + [Entry(k, b, mode)], k)
      && forall n {:trigger h[n]} :: 0 <= n < |h| && h[n].k != k && Conflict(h[n].mode, mode) ==>
           Task(h[n].k) in done || Before(e + o.edges, Task(h[n].k), Task(k))
  {
    var o := Detect(hs, k, b, mode);
    var e' := e + o.edges;
    if Concurrent(mode, hs.lastMode) {
      JoinKeepsInv(e, done, hs, h, k, b, mode);
      ConcurrentByClass(mode, hs.lastMode);
      forall n | 0 <= n < |h| && h[n].k != k && Conflict(h[n].mode, mode)
        ensures Task(h[n].k) in done || Before(e', Task(h[n].k), Task(k))
      {
        if Waited(e, done, hs, h[n].k) {
          if Task(h[n].k) !in done {
            BeforeMonotone(e, e', Task(h[n].k), hs.lastSync.value);
            if hs.lastSync.value != Task(k) {
              assert (hs.lastSync.value, Task(k)) in o.edges;
              BeforeStep(e', Task(h[n].k), hs.lastSync.value, Task(k));
            }
          }
        } else {
          assert !InGroup(e, hs, h[n]);
          BeforeMonotone(e, e', Task(h[n].k), Task(k));
        }
      }
    } else if |hs.accessors| < 2 {
      TakeOverKeepsInv(e, done, hs, h, k, b, mode);
    } else if mode == {W} {
      ServeKeepsInv(e, done, hs, h, k, b, mode);
    } else {
      SyncKeepsInv(e, done, hs, h, k, b, mode);
    }
  }

  // ---------------------------------------------------------------- release and end of submission

  lemma {:induction false} OwnSlotsWithout(xs: seq<Slot>, k: nat, slot: Slot)
    requires slot.k != k
    ensures OwnSlots(Without(xs, slot), k) == OwnSlots(xs, k)
  {
    if xs != [] {
      OwnSlotsWithout(xs[1..], k, slot);
    }
  }

  lemma ShapedRelease(e: set<Edge>, hs: HandleState, cs: seq<Class>, k: nat, job: Job, slot: Option<Slot>)
    requires Shaped(e, hs, cs, k) && job != Task(k) && (slot.Some? ==> job == Task(slot.value.k))
    ensures Shaped(e, Release(hs, job, slot), cs, k)
  {
    if slot.Some? {
      WithoutMembers(hs.accessors, slot.value);
      OwnSlotsWithout(hs.accessors, k, slot.value);
    }
  }

  lemma ShapedNextTask(e: set<Edge>, hs: HandleState, cs: seq<Class>, k: nat)
    requires Shaped(e, hs, cs, k)
    ensures Shaped(e, hs, [], k + 1)
  {
    OwnSlotsBounds(hs.accessors, k + 1);
  }

  /** Forgetting a finished job keeps the invariant: all it stood for has finished too. */
  lemma ReleaseKeepsInv(
    e: set<Edge>, done: set<Job>, hs: HandleState, h: seq<Entry>, k: nat, job: Job, slot: Option<Slot>)
    requires HandleInv(e, done, hs, h, k) && Settled(e, done)
    requires job in done && Task(k) !in done && (slot.Some? ==> job == Task(slot.value.k))
    ensures HandleInv(e, done, Release(hs, job, slot), h, k)
  {
    var hs' := Release(hs, job, slot);
    ShapedRelease(e, hs, OwnClasses(h, k), k, job, slot);
    if slot.Some? {
      WithoutMembers(hs.accessors, slot.value);
    }
    forall n | 0 <= n < |h| && Waited(e, done, hs, h[n].k)
      ensures Waited(e, done, hs', h[n].k)
    {
      if Task(h[n].k) !in done && hs.lastSync == Some(job) {
        SettledPath(e, done, Task(h[n].k), job);
      }
    }
    if Full(e, done, hs, h) {
      forall n | 0 <= n < |h|
        ensures Waited(e, done, hs', h[n].k) || InGroup(e, hs', h[n])
      {
        if !Waited(e, done, hs, h[n].k) {
          var x :| x in hs.accessors && (if ClassOf(hs.lastMode) == Exclusive then Before(e, Task(h[n].k), Task(x.k))
            else x.k == h[n].k && ClassOf(h[n].mode) == ClassOf(hs.lastMode));
          if x in hs'.accessors {
            assert InGroup(e, hs', h[n]);
          } else {
            SettledPath(e, done, Task(h[n].k), Task(x.k));
          }
        }
      }
    } else {
      assert hs.accessors[0] in hs.accessors;
      assert hs.accessors[0] in hs'.accessors;
    }
  }

  lemma {:induction false} NoOwnClasses(h: seq<Entry>, k: nat)
    requires forall n {:trigger h[n]} :: 0 <= n < |h| ==> h[n].k < k
    ensures OwnClasses(h, k) == []
  {
    if h != [] {
      NoOwnClasses(h[..|h| - 1], k);
    }
  }

  /** Once a task free of the hazard has been submitted, every access is accounted for. */
  lemma SubmittedKeepsInv(e: set<Edge>, done: set<Job>, hs: HandleState, h: seq<Entry>, k: nat)
    requires HandleInv(e, done, hs, h, k) && !Hazard(OwnClasses(h, k))
    requires forall n {:trigger h[n]} :: 0 <= n < |h| ==> h[n].k <= k
    ensures HandleInv(e, done, hs, h, k + 1)
    ensures Full(e, done, hs, h)
  {
    NoOwnClasses(h, k + 1);
    ShapedNextTask(e, hs, OwnClasses(h, k), k);
  }
}
