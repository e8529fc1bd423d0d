/** The numbering of headings in the manual, doc/sectionNumbering.py. */
module Sections {
  import opened Lexicographic

  /** What the script looks for in a line; each kind of heading is counted once per line. */
  datatype Line = Line(foreword: bool, h1: bool, h2: bool, h3: bool)

  /** The script's variables. A Python variable may not exist yet; the last two survive from one file to the next. */
  datatype Variable = Undefined | Defined(value: nat)

  datatype Counters = Counters(chapter: nat, section: nat, subsection: Variable, subsubsection: Variable)

  /** The label is one that these counters have already passed. */
  ghost predicate Passed(l: Label, c: Counters) {
    && |l| >= 2
    && (l[0] < c.chapter || (l[0] == c.chapter &&
         (l[1] < c.section || (l[1] == c.section &&
           (|l| == 2 || (c.subsection.Defined? &&
             (l[2] < c.subsection.value || (l[2] == c.subsection.value &&
               (|l| == 3 || (c.subsubsection.Defined? && l[3] <= c.subsubsection.value))))))))))
  }

  ghost predicate Fits(labels: seq<Label>, c: Counters) {
    Increasing(labels) && (labels != [] ==> Passed(labels[|labels| - 1], c))
  }

  lemma PassedIsLess(l: Label, c: Counters)
    requires Passed(l, c)
    ensures Less(l, [c.chapter, c.section + 1])
    ensures c.subsection.Defined? ==> Less(l, [c.chapter, c.section, c.subsection.value + 1])
    ensures c.subsection.Defined? && c.subsubsection.Defined? ==>
      Less(l, [c.chapter, c.section, c.subsection.value, c.subsubsection.value + 1])
  {
    LessAt(l, [c.chapter, c.section + 1], if l[0] < c.chapter then 0 else 1);
    if c.subsection.Defined? {
      var k := if l[0] < c.chapter then 0 else if l[1] < c.section then 1 else 2;
      LessAt(l, [c.chapter, c.section, c.subsection.value + 1], k);
      if c.subsubsection.Defined? {
        var k' := if k < 2 || |l| == 2 || l[2] < c.subsection.value then k else 3;
        LessAt(l, [c.chapter, c.section, c.subsection.value, c.subsubsection.value + 1], k');
      }
    }
  }

  /** What a heading of each level makes of the counters. */
  function After1(c: Counters): (c': Counters) {
    c.(section := c.section + 1, subsection := Defined(0))
  }

  function After2(c: Counters): (c': Counters)
    requires c.subsection.Defined?
  {
    c.(subsection := Defined(c.subsection.value + 1), subsubsection := Defined(0))
  }

  function After3(c: Counters): (c': Counters)
    requires c.subsubsection.Defined?
  {
    c.(subsubsection := Defined(c.subsubsection.value + 1))
  }

  /** Each keeps the labels in order. */
  lemma Heading1Fits(labels: seq<Label>, c: Counters)
    requires Fits(labels, c)
    ensures Fits(labels + [[c.chapter, c.section + 1]], After1(c))
  {
    if labels != [] {
      PassedIsLess(labels[|labels| - 1], c);
    }
    Extend(labels, [c.chapter, c.section + 1]);
  }

  lemma Heading2Fits(labels: seq<Label>, c: Counters)
    requires Fits(labels, c) && c.subsection.Defined?
    ensures Fits(labels + [[c.chapter, c.section, c.subsection.value + 1]], After2(c))
  {
    if labels != [] {
      PassedIsLess(labels[|labels| - 1], c);
    }
    Extend(labels, [c.chapter, c.section, c.subsection.value + 1]);
  }

  lemma Heading3Fits(labels: seq<Label>, c: Counters)
    requires Fits(labels, c) && c.subsection.Defined? && c.subsubsection.Defined?
    ensures Fits(labels + [[c.chapter, c.section, c.subsection.value, c.subsubsection.value + 1]], After3(c))
  {
    if labels != [] {
      PassedIsLess(labels[|labels| - 1], c);
    }
    Extend(labels, [c.chapter, c.section, c.subsection.value, c.subsubsection.value + 1]);
  }

  /** The labels of a line whose headings leave the counters at c. */
  function LabelsOf(line: Line, c: Counters): (labels: seq<Label>)
    requires (line.h2 ==> c.subsection.Defined?) && (line.h3 ==> c.subsection.Defined? && c.subsubsection.Defined?)
    ensures |labels| == (if line.h1 then 1 else 0) + (if line.h2 then 1 else 0) + (if line.h3 then 1 else 0)
  {
    (if line.h1 then [[c.chapter, c.section]] else [])
    + (if line.h2 then [[c.chapter, c.section, c.subsection.value]] else [])
    + (if line.h3 then [[c.chapter, c.section, c.subsection.value, c.subsubsection.value]] else [])
  }

  /** How a line moves the counters: a heading adds one at its level and restarts the next one. */
  ghost predicate Moves(line: Line, c: Counters, c': Counters) {
    && c'.chapter == c.chapter && c'.section == c.section + (if line.h1 then 1 else 0)
    && (if !line.h1 && !line.h2 then c'.subsection == c.subsection
        else (line.h1 || c.subsection.Defined?) &&
             c'.subsection == Defined((if line.h1 then 0 else c.subsection.value) + (if line.h2 then 1 else 0)))
    && (if !line.h2 && !line.h3 then c'.subsubsection == c.subsubsection
        else (line.h2 || c.subsubsection.Defined?) &&
             c'.subsubsection == Defined((if line.h2 then 0 else c.subsubsection.value) + (if line.h3 then 1 else 0)))
  }

  /** Every heading of the line has the counter it needs. */
  predicate Countable(line: Line, c: Counters) {
    && (line.h2 ==> line.h1 || c.subsection.Defined?)
    && (line.h3 ==> line.h2 || (c.subsubsection.Defined? && (line.h1 || c.subsection.Defined?)))
  }

  /** Whatever headings a line has, its labels continue the order. */
  lemma LineFits(labels: seq<Label>, line: Line, c: Counters, c': Counters)
    requires Fits(labels, c) && Countable(line, c) && Moves(line, c, c')
    ensures Fits(labels + LabelsOf(line, c'), c')
  {
    var l1, c1 := labels, c;
    if line.h1 {
      Heading1Fits(labels, c);
      l1, c1 := labels + [[c.chapter, c.section + 1]], After1(c);
    }
    var l2, c2 := l1, c1;
    if line.h2 {
      Heading2Fits(l1, c1);
      l2, c2 := l1 + [[c1.chapter, c1.section, c1.subsection.value + 1]], After2(c1);
    }
    var l3, c3 := l2, c2;
    if line.h3 {
      Heading3Fits(l2, c2);
      l3, c3 := l2 + [[c2.chapter, c2.section, c2.subsection.value, c2.subsubsection.value + 1]], After3(c2);
    }
    assert c3 == c' && l3 == labels + LabelsOf(line, c');
  }

  /** One line; the script stops with a NameError at a heading whose counter does not exist. */
  method NumberLine(line: Line, c: Counters) returns (c': Counters, labels: seq<Label>, ok: bool)
    ensures ok <==> line.foreword || Countable(line, c)
    ensures if line.foreword then c' == c && labels == []
            else ok ==> Moves(line, c, c') && labels == LabelsOf(line, c')
  {
    c', labels, ok := c, [], true;
    if !line.foreword {
      if line.h1 {
        c' := c'.(section := c'.section + 1);
        labels := labels + [[c'.chapter, c'.section]];
        c' := c'.(subsection := Defined(0));
      }
      if line.h2 {
        if c'.subsection.Undefined? {
          return c', labels, false;
        }
        c' := c'.(subsection := Defined(c'.subsection.value + 1));
        labels := labels + [[c'.chapter, c'.section, c'.subsection.value]];
        c' := c'.(subsubsection := Defined(0));
      }
      if line.h3 {
        if c'.subsubsection.Undefined? || c'.subsection.Undefined? {
          return c', labels, false;
        }
        c' := c'.(subsubsection := Defined(c'.subsubsection.value + 1));
        labels := labels + [[c'.chapter, c'.section, c'.subsection.value, c'.subsubsection.value]];
      }
    }
  }

  function Headings(lines: seq<Line>): (n: nat) {
    if lines == [] then 0
    else
      var last := lines[|lines| - 1];
      Headings(lines[..|lines| - 1]) +
      if last.foreword then 0 else (if last.h1 then 1 else 0) + (if last.h2 then 1 else 0) + (if last.h3 then 1 else 0)
  }

  function AllHeadings(files: seq<seq<Line>>): (n: nat) {
    if files == [] then 0 else AllHeadings(files[..|files| - 1]) + Headings(files[|files| - 1])
  }

  // ---------------------------------------------------------------- what the numbers mean

  /** How many of these lines have a first-level heading. */
  function Count1(lines: seq<Line>): (n: nat) {
    if lines == [] then 0
    else
      var last := lines[|lines| - 1];
      Count1(lines[..|lines| - 1]) + if !last.foreword && last.h1 then 1 else 0
  }

  /** How many have a second-level heading, from the last first-level one on. */
  function Since1(lines: seq<Line>): (n: nat) {
    if lines == [] then 0
    else
      var last := lines[|lines| - 1];
      if last.foreword then Since1(lines[..|lines| - 1])
      else (if last.h1 then 0 else Since1(lines[..|lines| - 1])) + if last.h2 then 1 else 0
  }

  /** How many have a third-level heading, from the last second-level one on. */
  function Since2(lines: seq<Line>): (n: nat) {
    if lines == [] then 0
    else
      var last := lines[|lines| - 1];
      if last.foreword then Since2(lines[..|lines| - 1])
      else (if last.h2 then 0 else Since2(lines[..|lines| - 1])) + if last.h3 then 1 else 0
  }

  /** The lines of these files one after the other. */
  function Flat(files: seq<seq<Line>>): (lines: seq<Line>) {
    if files == [] then [] else Flat(files[..|files| - 1]) + files[|files| - 1]
  }

  predicate Has(line: Line, level: nat) {
    !line.foreword && (if level == 1 then line.h1 else if level == 2 then line.h2 else line.h3)
  }

  /** The labels of a line by level, if it has a heading of that level. */
  function Levels(line: Line, l1: Label, l2: Label, l3: Label): (table: seq<Placed<Label>>) {
    (if Has(line, 1) then [Placed([1], l1)] else [])
    + (if Has(line, 2) then [Placed([2], l2)] else [])
    + (if Has(line, 3) then [Placed([3], l3)] else [])
  }

  lemma LevelsMembers(line: Line, l1: Label, l2: Label, l3: Label, l: Label)
    ensures Placed([1], l) in Levels(line, l1, l2, l3) <==> Has(line, 1) && l == l1
    ensures Placed([2], l) in Levels(line, l1, l2, l3) <==> Has(line, 2) && l == l2
    ensures Placed([3], l) in Levels(line, l1, l2, l3) <==> Has(line, 3) && l == l3
    ensures Sorted(Levels(line, l1, l2, l3))
  {
    assert [1][0] == 1 && [2][0] == 2 && [3][0] == 3;
  }

  /** The labels of the last of the lines, by level: `own` are those of the file so far, `before` those of the earlier
      files. The section counts within the file, the other two run on from file to file. */
  function LineTable(chapter: nat, before: seq<Line>, own: seq<Line>): (table: seq<Placed<Label>>)
    requires own != []
  {
    var section, all := Count1(own), before + own;
    Levels(own[|own| - 1], [chapter, section], [chapter, section, Since1(all)],
           [chapter, section, Since1(all), Since2(all)])
  }

  function FileTables(chapter: nat, before: seq<Line>, lines: seq<Line>, n: nat): (tables: seq<seq<Placed<Label>>>)
    requires n <= |lines|
    ensures |tables| == n
    ensures forall k {:trigger tables[k]} :: 0 <= k < n ==> tables[k] == LineTable(chapter, before, lines[..k + 1])
  {
    seq(n, k requires 0 <= k < n => LineTable(chapter, before, lines[..k + 1]))
  }

  function FileTable(chapter: nat, before: seq<Line>, lines: seq<Line>): (table: seq<Placed<Label>>) {
    Chapters(FileTables(chapter, before, lines, |lines|))
  }

  function ManualTables(files: seq<seq<Line>>, n: nat): (tables: seq<seq<Placed<Label>>>)
    requires n <= |files|
    ensures |tables| == n
    ensures forall x {:trigger tables[x]} :: 0 <= x < n ==> tables[x] == FileTable(x + 1, Flat(files[..x]), files[x])
  {
    seq(n, x requires 0 <= x < n => FileTable(x + 1, Flat(files[..x]), files[x]))
  }

  /** The labels of the whole manual, at places [file, line, level]. */
  function ManualTable(files: seq<seq<Line>>): (table: seq<Placed<Label>>) {
    Chapters(ManualTables(files, |files|))
  }

  lemma LineMembers(chapter: nat, before: seq<Line>, own: seq<Line>, l: Label)
    requires own != []
    ensures var last, section, all, table := own[|own| - 1], Count1(own), before + own, LineTable(chapter, before, own);
      && Sorted(table)
      && (Placed([1], l) in table <==> Has(last, 1) && l == [chapter, section])
      && (Placed([2], l) in table <==> Has(last, 2) && l == [chapter, section, Since1(all)])
      && (Placed([3], l) in table <==> Has(last, 3) && l == [chapter, section, Since1(all), Since2(all)])
  {
    var section, all := Count1(own), before + own;
    LevelsMembers(own[|own| - 1], [chapter, section], [chapter, section, Since1(all)],
                  [chapter, section, Since1(all), Since2(all)], l);
  }

  lemma FileSorted(chapter: nat, before: seq<Line>, lines: seq<Line>)
    ensures Sorted(FileTable(chapter, before, lines))
  {
    var tables := FileTables(chapter, before, lines, |lines|);
    forall k | 0 <= k < |lines|
      ensures Sorted(tables[k])
    {
      LineMembers(chapter, before, lines[..k + 1], []);
    }
    ChaptersSorted(tables);
  }

  /** Each place is used once, in the order of files, lines and levels. */
  lemma ManualSorted(files: seq<seq<Line>>)
    ensures Sorted(ManualTable(files))
  {
    var tables := ManualTables(files, |files|);
    forall x | 0 <= x < |files|
      ensures Sorted(tables[x])
    {
      FileSorted(x + 1, Flat(files[..x]), files[x]);
    }
    ChaptersSorted(tables);
  }

  lemma ManualMembers(files: seq<seq<Line>>, x: nat, n: nat, level: nat, l: Label)
    requires x < |files| && n < |files[x]|
    ensures Placed([x, n, level], l) in ManualTable(files) <==>
            Placed([level], l) in LineTable(x + 1, Flat(files[..x]), files[x][..n + 1])
  {
    ChaptersMembers(ManualTables(files, |files|), [x, n, level], l);
    assert [x, n, level][1..] == [n, level] && [n, level][1..] == [level];
    ChaptersMembers(FileTables(x + 1, Flat(files[..x]), files[x], |files[x]|), [n, level], l);
  }

  lemma Count1Next(lines: seq<Line>, n: nat)
    requires n < |lines|
    ensures Count1(lines[..n + 1]) == Count1(lines[..n]) + if Has(lines[n], 1) then 1 else 0
  {
    assert lines[..n + 1][..n] == lines[..n];
  }

  /** A first-level heading of file x is labelled with the number of the file and its own number within the file, and
      nothing else is at its place. In particular the first one of each file has section 1. */
  lemma HeadingLabel(files: seq<seq<Line>>, x: nat, n: nat, l: Label)
    requires x < |files| && n < |files[x]|
    ensures Placed([x, n, 1], l) in ManualTable(files) <==>
            Has(files[x][n], 1) && l == [x + 1, Count1(files[x][..n]) + 1]
  {
    ManualMembers(files, x, n, 1, l);
    LineMembers(x + 1, Flat(files[..x]), files[x][..n + 1], l);
    Count1Next(files[x], n);
  }

  /** The lines from p on that have a heading of this level. */
  ghost function From(lines: seq<Line>, p: nat, level: nat): (ks: set<nat>) {
    set k: nat | p <= k < |lines| && Has(lines[k], level)
  }

  /** Line p is the last with a heading of this level. */
  ghost predicate LastOf(lines: seq<Line>, p: nat, level: nat) {
    p < |lines| && Has(lines[p], level) && forall k {:trigger lines[k]} :: p < k < |lines| ==> !Has(lines[k], level)
  }

  lemma FromNext(lines: seq<Line>, p: nat, level: nat)
    requires p < |lines|
    ensures var n := |lines| - 1; |From(lines, p, level)| == |From(lines[..n], p, level)| + if Has(lines[n], level) then 1 else 0
  {
    var n := |lines| - 1;
    assert From(lines, p, level) == From(lines[..n], p, level) + if Has(lines[n], level) then {n} else {};
  }

  /** The counters that run on count from the last heading of the level above. */
  lemma {:induction false} SinceCounts(lines: seq<Line>, p: nat)
    ensures LastOf(lines, p, 1) ==> Since1(lines) == |From(lines, p, 2)|
    ensures LastOf(lines, p, 2) ==> Since2(lines) == |From(lines, p, 3)|
  {
    if p < |lines| {
      var first := lines[..|lines| - 1];
      SinceCounts(first, p);
      FromNext(lines, p, 2);
      FromNext(lines, p, 3);
      assert p == |first| ==> From(first, p, 2) == {} && From(first, p, 3) == {};
    }
  }

  /** The headings below: after the numbers of the file and of the section stand how many second-level headings there are
      from the last first-level one on, and how many third-level ones from the last second-level one on, whatever the
      files that these are in. */
  lemma LowerHeadingLabel(files: seq<seq<Line>>, x: nat, n: nat, p: nat, q: nat, l: Label)
    requires x < |files| && n < |files[x]|
    requires var all := Flat(files[..x]) + files[x][..n + 1]; LastOf(all, p, 1) && LastOf(all, q, 2)
    ensures var all, section := Flat(files[..x]) + files[x][..n + 1], Count1(files[x][..n + 1]);
      && (Placed([x, n, 2], l) in ManualTable(files) <==>
            Has(files[x][n], 2) && l == [x + 1, section, |From(all, p, 2)|])
      && (Placed([x, n, 3], l) in ManualTable(files) <==>
            Has(files[x][n], 3) && l == [x + 1, section, |From(all, p, 2)|, |From(all, q, 3)|])
  {
    ManualMembers(files, x, n, 2, l);
    ManualMembers(files, x, n, 3, l);
    LineMembers(x + 1, Flat(files[..x]), files[x][..n + 1], l);
    SinceCounts(Flat(files[..x]) + files[x][..n + 1], p);
    SinceCounts(Flat(files[..x]) + files[x][..n + 1], q);
  }

  // ---------------------------------------------------------------- the whole manual

  /** The script's variables are these counts. */
  ghost predicate Counts(c: Counters, before: seq<Line>, own: seq<Line>) {
    && c.section == Count1(own)
    && (c.subsection.Defined? ==> c.subsection.value == Since1(before + own))
    && (c.subsubsection.Defined? ==> c.subsubsection.value == Since2(before + own))
  }

  lemma LineCounts(c: Counters, c': Counters, before: seq<Line>, own: seq<Line>, line: Line)
    requires Counts(c, before, own)
    requires if line.foreword then c' == c else Countable(line, c) && Moves(line, c, c')
    ensures Counts(c', before, own + [line])
    ensures (if line.foreword then [] else LabelsOf(line, c')) == Contents(LineTable(c'.chapter, before, own + [line]))
  {
    var all := before + own;
    assert (own + [line])[..|own|] == own;
    assert before + (own + [line]) == all + [line] && (all + [line])[..|all|] == all;
  }

  /** One file. `start` are the labels of the files before it, and `before` their lines. */
  method NumberFile(lines: seq<Line>, c: Counters, ghost start: seq<Label>, ghost before: seq<Line>)
    returns (c': Counters, labels: seq<Label>, ok: bool)
    requires Fits(start, c) && Counts(c, before, [])
    ensures Increasing(start + labels)
    ensures ok ==>
      && Fits(start + labels, c') && Counts(c', before, lines) && c'.chapter == c.chapter
      && |labels| == Headings(lines) && labels == Contents(FileTable(c.chapter, before, lines))
  {
    c', labels, ok := c, [], true;
    assert start + [] == start;
    for n := 0 to |lines|
      invariant Fits(start + labels, c') && c'.chapter == c.chapter && ok
      invariant |labels| == Headings(lines[..n]) && labels == Contents(Chapters(FileTables(c.chapter, before, lines, n)))
      invariant Counts(c', before, lines[..n])
    {
      var c1, added;
      c1, added, ok := NumberLine(lines[n], c');
      if !ok {
        return;
      }
      NextLine(lines, c', c1, start, before, labels, added, n);
      c', labels := c1, labels + added;
    }
    assert lines[..|lines|] == lines;
  }

  /** The line moves the counters from c to c' and adds these labels. */
  ghost predicate Numbered(line: Line, c: Counters, c': Counters, added: seq<Label>) {
    if line.foreword then c' == c && added == []
    else Countable(line, c) && Moves(line, c, c') && added == LabelsOf(line, c')
  }

  lemma NextLine(
    lines: seq<Line>, c: Counters, c': Counters, start: seq<Label>, before: seq<Line>, labels: seq<Label>,
    added: seq<Label>, n: nat)
    requires n < |lines| && Numbered(lines[n], c, c', added)
    requires Fits(start + labels, c) && Counts(c, before, lines[..n])
    requires labels == Contents(Chapters(FileTables(c.chapter, before, lines, n)))
    ensures Fits(start + (labels + added), c') && Counts(c', before, lines[..n + 1])
    ensures labels + added == Contents(Chapters(FileTables(c.chapter, before, lines, n + 1)))
    ensures Headings(lines[..n + 1]) == Headings(lines[..n]) + |added|
  {
    NextFits(start, labels, lines[n], c, c', added);
    assert lines[..n + 1] == lines[..n] + [lines[n]];
    LineCounts(c, c', before, lines[..n], lines[n]);
    TablesGrow(c.chapter, before, lines, n);
    NextHeadings(lines, c, c', added, n);
  }

  lemma NextFits(start: seq<Label>, labels: seq<Label>, line: Line, c: Counters, c': Counters, added: seq<Label>)
    requires Numbered(line, c, c', added) && Fits(start + labels, c)
    ensures Fits(start + (labels + added), c')
  {
    assert (start + labels) + added == start + (labels + added);
    if !line.foreword {
      LineFits(start + labels, line, c, c');
    }
  }

  lemma NextHeadings(lines: seq<Line>, c: Counters, c': Counters, added: seq<Label>, n: nat)
    requires n < |lines| && Numbered(lines[n], c, c', added)
    ensures Headings(lines[..n + 1]) == Headings(lines[..n]) + |added|
  {
    assert lines[..n + 1][..n] == lines[..n];
  }

  lemma TablesGrow(chapter: nat, before: seq<Line>, lines: seq<Line>, n: nat)
    requires n < |lines|
    ensures Contents(Chapters(FileTables(chapter, before, lines, n + 1)))
         == Contents(Chapters(FileTables(chapter, before, lines, n))) + Contents(LineTable(chapter, before, lines[..n + 1]))
  {
    var tables, last := FileTables(chapter, before, lines, n), LineTable(chapter, before, lines[..n + 1]);
    assert FileTables(chapter, before, lines, n + 1) == tables + [last];
    NextChapter(tables, last);
  }

  lemma NextFile(c: Counters, files: seq<seq<Line>>, x: nat)
    requires x < |files| && Counts(c, Flat(files[..x]), files[x])
    ensures Counts(c.(section := 0), Flat(files[..x + 1]), [])
    ensures AllHeadings(files[..x + 1]) == AllHeadings(files[..x]) + Headings(files[x])
  {
    assert files[..x + 1][..x] == files[..x];
    assert Flat(files[..x + 1]) + [] == Flat(files[..x]) + files[x];
  }

  lemma ManualGrows(files: seq<seq<Line>>, x: nat)
    requires x < |files|
    ensures Contents(Chapters(ManualTables(files, x + 1)))
         == Contents(Chapters(ManualTables(files, x))) + Contents(FileTable(x + 1, Flat(files[..x]), files[x]))
  {
    var tables, last := ManualTables(files, x), FileTable(x + 1, Flat(files[..x]), files[x]);
    assert ManualTables(files, x + 1) == tables + [last];
    NextChapter(tables, last);
  }

  /** Whatever the files contain, the labels come in strictly increasing order, so none occurs twice; and unless the
      script stops, every heading has its label. */
  method NumberManual(files: seq<seq<Line>>) returns (labels: seq<Label>, ok: bool)
    ensures Increasing(labels)
    ensures ok ==> |labels| == AllHeadings(files) && labels == Contents(ManualTable(files))
  {
    var c := Counters(0, 0, Undefined, Undefined);
    labels, ok := [], true;
    for x := 0 to |files|
      invariant Fits(labels, c) && c.chapter == x && ok
      invariant |labels| == AllHeadings(files[..x]) && labels == Contents(Chapters(ManualTables(files, x)))
      invariant Counts(c.(section := 0), Flat(files[..x]), [])
    {
      c := c.(chapter := c.chapter + 1, section := 0);
      var added;
      c, added, ok := NumberFile(files[x], c, labels, Flat(files[..x]));
      labels := labels + added;
      if !ok {
        return;
      }
      NextFile(c, files, x);
      ManualGrows(files, x);
    }
    assert files[..|files|] == files;
  }
}
