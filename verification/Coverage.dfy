/** When a wanted access is represented by the ones that the detection processes, and what that means for conflicts. */
module Coverage {
  import opened ImplicitDeps
  import opened HandleOrder
  import opened TaskGraph

  lemma SeenBy(accs: seq<Access>, h: nat, c: Class) returns (b: nat)
    requires Sees(accs, h, c)
    ensures b < |accs| && Processed(accs, b) && accs[b].handle == h && AccessClass(accs[b]) == c
  {
    b :| b < |accs| && Processed(accs, b) && accs[b].handle == h && AccessClass(accs[b]) == c;
  }

  /** Whatever conflicts with a covered access conflicts with a processed one to the same handle. */
  lemma CoverConflicts(accs: seq<Access>, b: nat, mode: Mode) returns (p: nat)
    requires b < |accs| && CoveredAt(accs, b) && Conflict(Relevant(accs[b].mode), mode)
    ensures p < |accs| && Processed(accs, p) && accs[p].handle == accs[b].handle
    ensures Conflict(Relevant(accs[p].mode), mode)
  {
    var h, c := accs[b].handle, AccessClass(accs[b]);
    if Sees(accs, h, c) {
      p := SeenBy(accs, h, c);
    } else if Sees(accs, h, Exclusive) {
      p := SeenBy(accs, h, Exclusive);
    } else {
      var d :| Sees(accs, h, d) && SeesOther(accs, h, d);
      var d' :| d' != d && Sees(accs, h, d');
      p := SeenBy(accs, h, if d == ClassOf(mode) then d' else d);
    }
  }

  function ModeOf(c: Class): (m: Mode)
    ensures ClassOf(Relevant(m)) == c && Relevant(m) == m && Scratch !in m
  {
    match c
    case Reading => {R}
    case Commuting => {W, Commute}
    case Reducing => {Redux}
    case Exclusive => {W}
  }

  /** Conversely, an access that is not covered conflicts with a class that nothing processed conflicts with. */
  lemma UncoveredClass(accs: seq<Access>, b: nat) returns (c: Class)
    requires b < |accs| && !CoveredAt(accs, b)
    ensures Conflict(Relevant(accs[b].mode), ModeOf(c))
    ensures forall p: nat {:trigger Processed(accs, p)} ::
      p < |accs| && Processed(accs, p) && accs[p].handle == accs[b].handle ==> AccessClass(accs[p]) == c != Exclusive
  {
    var h := accs[b].handle;
    c := Exclusive;
    if p: nat :| p < |accs| && Processed(accs, p) && accs[p].handle == h {
      c := AccessClass(accs[p]);
      assert Sees(accs, h, c);
    }
    forall p: nat | p < |accs| && Processed(accs, p) && accs[p].handle == h
      ensures AccessClass(accs[p]) == c != Exclusive
    {
      assert Sees(accs, h, AccessClass(accs[p]));
    }
  }

  // ---------------------------------------------------------------- the first twin of a buffer

  /** Handles have one root each. */
  ghost predicate Rooted(accs: seq<Access>) {
    forall b, c {:trigger accs[b], accs[c]} :: 0 <= b < |accs| && 0 <= c < |accs| && accs[b].handle == accs[c].handle ==>
      accs[b].root == accs[c].root
  }

  /** Buffer j has the handle and mode of buffer b, and all buffers from it to b are of one root. */
  predicate Twin(accs: seq<Access>, j: nat, b: nat)
    requires b < |accs|
  {
    && j <= b && accs[j].handle == accs[b].handle && accs[j].mode == accs[b].mode
    && forall i {:trigger accs[i].root} :: j < i < b ==> accs[i].root == accs[b].root
  }

  function FirstTwinFrom(accs: seq<Access>, j: nat, b: nat): (f: nat)
    requires j <= b < |accs|
    ensures j <= f <= b && Twin(accs, f, b)
    ensures forall i: nat {:trigger Twin(accs, i, b)} :: j <= i < f ==> !Twin(accs, i, b)
    decreases b - j
  {
    if j == b || Twin(accs, j, b) then j else FirstTwinFrom(accs, j + 1, b)
  }

  /** The first buffer of the same handle and mode in the stretch of buffers of one root that ends at buffer b. */
  function FirstTwin(accs: seq<Access>, b: nat): (f: nat)
    requires b < |accs|
    ensures f <= b && Twin(accs, f, b)
  {
    FirstTwinFrom(accs, 0, b)
  }

  ghost predicate Represented(accs: seq<Access>, b: nat)
    requires b < |accs|
  {
    exists p: nat {:trigger Twin(accs, p, b)} :: p <= b && Twin(accs, p, b) && Processed(accs, p)
  }

  lemma TwinOfTwin(accs: seq<Access>, i: nat, j: nat, b: nat)
    requires Rooted(accs) && b < |accs| && j <= b && Twin(accs, j, b) && i <= j && Twin(accs, i, j)
    ensures Twin(accs, i, b)
  {
    forall m | i < m < b
      ensures accs[m].root == accs[b].root
    {
      assert accs[j].root == accs[b].root;
      assert m < j ==> accs[m].root == accs[j].root;
    }
  }

  /** A wanted access is represented exactly when its first twin is enabled, whatever the flags of the others. */
  lemma RepresentedByFirst(accs: seq<Access>, b: nat)
    requires Rooted(accs) && b < |accs| && Wanted(accs, b)
    ensures Represented(accs, b) <==> accs[FirstTwin(accs, b)].enabled
  {
    var f := FirstTwin(accs, b);
    assert !DupBefore(accs, f) by {
      if DupBefore(accs, f) {
        var j :| 0 <= j < f && accs[j].handle == accs[f].handle && accs[j].mode == accs[f].mode
          && forall i {:trigger accs[i].root} :: j < i < f ==> accs[i].root == accs[f].root;
        TwinOfTwin(accs, j, f, b);
      }
    }
    if Represented(accs, b) {
      var p: nat :| p <= b && Twin(accs, p, b) && Processed(accs, p);
      if f < p {
        assert accs[p].root == accs[b].root;
        assert DupBefore(accs, p);
      }
    }
  }

  lemma RepresentedIsCovered(accs: seq<Access>, b: nat)
    requires b < |accs| && Represented(accs, b)
    ensures CoveredAt(accs, b)
  {
    var p: nat :| p <= b && Twin(accs, p, b) && Processed(accs, p);
    assert Sees(accs, accs[b].handle, AccessClass(accs[b]));
  }

  /** So a task none of whose wanted buffers comes after an exempt twin loses nothing. */
  lemma FirstTwinsEnabled(accs: seq<Access>)
    requires Rooted(accs)
    requires forall b: nat {:trigger FirstTwin(accs, b)} :: b < |accs| && Wanted(accs, b) ==>
      accs[FirstTwin(accs, b)].enabled
    ensures Covered(accs)
  {
    forall b: nat | b < |accs| && Wanted(accs, b)
      ensures CoveredAt(accs, b)
    {
      RepresentedByFirst(accs, b);
      RepresentedIsCovered(accs, b);
    }
  }

  /** Where sequential consistency is on for all accesses to a handle, each of them is processed or has a processed one
      of the same mode before it. */
  lemma {:induction false} EnabledIsCovered(accs: seq<Access>, b: nat)
    requires b < |accs| && Wanted(accs, b)
    requires forall c {:trigger accs[c]} :: 0 <= c < |accs| && accs[c].handle == accs[b].handle ==> accs[c].enabled
    ensures Sees(accs, accs[b].handle, AccessClass(accs[b]))
    decreases b
  {
    if DupBefore(accs, b) {
      var j :| 0 <= j < b && accs[j].handle == accs[b].handle && accs[j].mode == accs[b].mode;
      EnabledIsCovered(accs, j);
    } else {
      assert Processed(accs, b);
    }
  }
}
