/** Labels in lexicographic order, and tables whose entries are at increasing labels: the order in which nested loops go. */
module Lexicographic {

  type Label = seq<nat>

  /** Lexicographic order; a proper prefix comes first. */
  predicate Less(a: Label, b: Label) {
    b != [] && (a == [] || a[0] < b[0] || (a[0] == b[0] && Less(a[1..], b[1..])))
  }

  lemma {:induction false} LessTransitive(a: Label, b: Label, c: Label)
    requires Less(a, b) && Less(b, c)
    ensures Less(a, c)
  {
    if a != [] && a[0] == b[0] == c[0] {
      LessTransitive(a[1..], b[1..], c[1..]);
    }
  }

  lemma {:induction false} LessIrreflexive(a: Label)
    ensures !Less(a, a)
  {
    if a != [] {
      LessIrreflexive(a[1..]);
    }
  }

  lemma {:induction false} LessAt(a: Label, b: Label, k: nat)
    requires k <= |a| && k < |b| && a[..k] == b[..k] && (k < |a| ==> a[k] < b[k])
    ensures Less(a, b)
    decreases k
  {
    if k > 0 {
      assert a[0] == a[..k][0] == b[0];
      assert a[1..][..k - 1] == a[..k][1..] == b[1..][..k - 1];
      LessAt(a[1..], b[1..], k - 1);
    }
  }

  ghost predicate Increasing(labels: seq<Label>) {
    forall i, j {:trigger labels[i], labels[j]} :: 0 <= i < j < |labels| ==> Less(labels[i], labels[j])
  }

  lemma Extend(labels: seq<Label>, next: Label)
    requires Increasing(labels) && (labels != [] ==> Less(labels[|labels| - 1], next))
    ensures Increasing(labels + [next])
  {
    forall i | 0 <= i < |labels|
      ensures Less(labels[i], next)
    {
      if i < |labels| - 1 {
        LessTransitive(labels[i], labels[|labels| - 1], next);
      }
    }
  }

  lemma IncreasingIsDistinct(labels: seq<Label>)
    requires Increasing(labels)
    ensures forall i, j {:trigger labels[i], labels[j]} :: 0 <= i < j < |labels| ==> labels[i] != labels[j]
  {
    forall i, j | 0 <= i < j < |labels|
      ensures labels[i] != labels[j]
    {
      LessIrreflexive(labels[i]);
    }
  }

  // ---------------------------------------------------------------- tables

  /** Something with its place. */
  datatype Placed<T> = Placed(at: Label, item: T)

  function Labels<T>(table: seq<Placed<T>>): (ls: seq<Label>)
    ensures |ls| == |table| && forall i {:trigger ls[i]} :: 0 <= i < |table| ==> ls[i] == table[i].at
  {
    seq(|table|, i requires 0 <= i < |table| => table[i].at)
  }

  function Contents<T>(table: seq<Placed<T>>): (items: seq<T>)
    ensures |items| == |table| && forall i {:trigger items[i]} :: 0 <= i < |table| ==> items[i] == table[i].item
  {
    seq(|table|, i requires 0 <= i < |table| => table[i].item)
  }

  lemma InLabels<T>(table: seq<Placed<T>>, at: Label, item: T)
    requires Placed(at, item) in table
    ensures at in Labels(table)
  {
    var i :| 0 <= i < |table| && table[i] == Placed(at, item);
    assert Labels(table)[i] == at;
  }

  /** Each place is used once, in increasing order. */
  ghost predicate Sorted<T>(table: seq<Placed<T>>) {
    Increasing(Labels(table))
  }

  /** The table as chapter n of a larger one. */
  function Under<T>(n: nat, table: seq<Placed<T>>): (table': seq<Placed<T>>)
    ensures |table'| == |table|
    ensures forall i {:trigger table'[i]} :: 0 <= i < |table| ==> table'[i] == Placed([n] + table[i].at, table[i].item)
  {
    seq(|table|, i requires 0 <= i < |table| => Placed([n] + table[i].at, table[i].item))
  }

  function Chapters<T>(tables: seq<seq<Placed<T>>>): (table: seq<Placed<T>>) {
    if tables == [] then []
    else
      var n := |tables| - 1;
      Chapters(tables[..n]) + Under(n, tables[n])
  }

  lemma NextChapter<T>(tables: seq<seq<Placed<T>>>, table: seq<Placed<T>>)
    ensures Chapters(tables + [table]) == Chapters(tables) + Under(|tables|, table)
    ensures Contents(Chapters(tables + [table])) == Contents(Chapters(tables)) + Contents(table)
  {
    assert (tables + [table])[..|tables|] == tables;
  }

  lemma {:induction false} ChaptersMembers<T>(tables: seq<seq<Placed<T>>>, at: Label, item: T)
    ensures Placed(at, item) in Chapters(tables) <==>
            at != [] && at[0] < |tables| && Placed(at[1..], item) in tables[at[0]]
  {
    if tables != [] {
      var n := |tables| - 1;
      ChaptersMembers(tables[..n], at, item);
      UnderMembers(n, tables[n], at, item);
    }
  }

  lemma UnderMembers<T>(n: nat, table: seq<Placed<T>>, at: Label, item: T)
    ensures Placed(at, item) in Under(n, table) <==> at != [] && at[0] == n && Placed(at[1..], item) in table
  {
    var under := Under(n, table);
    if at != [] && at[0] == n && Placed(at[1..], item) in table {
      var i :| 0 <= i < |table| && table[i] == Placed(at[1..], item);
      assert under[i] == Placed([n] + at[1..], item) && [n] + at[1..] == at;
    }
    if Placed(at, item) in under {
      var i :| 0 <= i < |under| && under[i] == Placed(at, item);
      assert at[1..] == table[i].at;
    }
  }

  lemma {:induction false} ChaptersSorted<T>(tables: seq<seq<Placed<T>>>)
    requires forall i {:trigger tables[i]} :: 0 <= i < |tables| ==> Sorted(tables[i])
    ensures Sorted(Chapters(tables))
    ensures forall i {:trigger Chapters(tables)[i]} :: 0 <= i < |Chapters(tables)| ==>
      Chapters(tables)[i].at != [] && Chapters(tables)[i].at[0] < |tables|
  {
    if tables != [] {
      var n := |tables| - 1;
      ChaptersSorted(tables[..n]);
      var first, last, all := Chapters(tables[..n]), Under(n, tables[n]), Chapters(tables);
      var ls := Labels(all);
      forall i, j | 0 <= i < j < |all|
        ensures Less(ls[i], ls[j])
      {
        assert all[i] == if i < |first| then first[i] else last[i - |first|];
        assert all[j] == if j < |first| then first[j] else last[j - |first|];
        if j < |first| {
          assert Less(Labels(first)[i], Labels(first)[j]);
        } else if |first| <= i {
          var a, b := Labels(tables[n])[i - |first|], Labels(tables[n])[j - |first|];
          assert Less(a, b) && ([n] + a)[1..] == a && ([n] + b)[1..] == b;
        }
      }
    }
  }
}
