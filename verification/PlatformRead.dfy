/** What `print_archs` says about the machine: its three sections, read back as rec records. */
module PlatformRead {
  import opened Lexicographic
  import opened RecFields
  import opened WorkerCounts
  import opened Platform

  // ---------------------------------------------------------------- numbers

  lemma DigitChar(d: nat)
    requires d < 10
    ensures var c := "0123456789"[d]; '0' <= c <= '9' && (c - '0') as nat == d
  {
  }

  /** The numbers with the last one, if any, replaced. */
  function Replaced(ns: seq<nat>, n: nat): (ns': seq<nat>) {
    (if ns == [] then [] else ns[..|ns| - 1]) + [n]
  }

  lemma DigitAppended(s: string, ns: seq<nat>, q: nat, d: nat)
    requires d < 10 && Numbers(s) == Replaced(ns, q)
    ensures Numbers(s + ["0123456789"[d]]) == Replaced(ns, 10 * q + d)
  {
    DigitChar(d);
    NumbersNext(s, "0123456789"[d]);
  }

  lemma FirstDigit(s: string, d: nat)
    requires d < 10 && (Numbers(s) == [] || Numbers(s)[|Numbers(s)| - 1] == 0)
    ensures Numbers(s + ["0123456789"[d]]) == Replaced(Numbers(s), d)
  {
    DigitChar(d);
    NumbersNext(s, "0123456789"[d]);
  }

  lemma LastDigit(s: string, n: nat) returns (q: nat, d: nat)
    ensures d < 10 && n == 10 * q + d && (q == 0 <==> n < 10)
    ensures n < 10 ==> s + Decimal(n) == s + ["0123456789"[d]]
    ensures n >= 10 ==> s + Decimal(n) == (s + Decimal(q)) + ["0123456789"[d]]
  {
    q, d := n / 10, n % 10;
  }

  lemma {:induction false} NumberAppended(s: string, n: nat)
    requires Numbers(s) == [] || Numbers(s)[|Numbers(s)| - 1] == 0
    ensures Numbers(s + Decimal(n)) == Replaced(Numbers(s), n)
    decreases n
  {
    var q, d := LastDigit(s, n);
    if n < 10 {
      FirstDigit(s, d);
    } else {
      NumberAppended(s, q);
      DigitAppended(s + Decimal(q), Numbers(s), q, d);
    }
  }

  /** A number reads back as itself. */
  lemma DecimalReadsBack(n: nat)
    ensures Numbers(Decimal(n)) == [n]
  {
    NumberAppended("", n);
    assert "" + Decimal(n) == Decimal(n);
  }

  /** The list is of exactly the workers of the node, in increasing order. */
  ghost predicate ListsWorkers(ids: seq<nat>, nodeOf: seq<nat>, node: nat) {
    && (forall i, j {:trigger ids[i], ids[j]} :: 0 <= i < j < |ids| ==> ids[i] < ids[j])
    && (forall w: nat {:trigger w in ids} :: w in ids <==> w < |nodeOf| && nodeOf[w] == node)
  }

  lemma WorkerAdded(before: string, w: nat)
    ensures Numbers((if before == "" then "" else before + " ") + Decimal(w)) == Numbers(before) + [w]
  {
    if before == "" {
      NumberAppended("", w);
    } else {
      NumbersNext(before, ' ');
      NumberAppended(before + " ", w);
    }
  }

  lemma OneMoreWorker(ids: seq<nat>, nodeOf: seq<nat>, node: nat, n: nat)
    requires 0 < n <= |nodeOf| && ListsWorkers(ids, nodeOf[..n - 1], node)
    ensures ListsWorkers(if nodeOf[n - 1] == node then ids + [n - 1] else ids, nodeOf[..n], node)
  {
    assert forall i {:trigger ids[i]} :: 0 <= i < |ids| ==> ids[i] in ids;
  }

  lemma {:induction false} WorkersReadBack(nodeOf: seq<nat>, node: nat, n: nat)
    requires n <= |nodeOf|
    ensures ListsWorkers(Numbers(WorkerList(nodeOf, node, n)), nodeOf[..n], node)
  {
    if n != 0 {
      WorkersReadBack(nodeOf, node, n - 1);
      var before := WorkerList(nodeOf, node, n - 1);
      OneMoreWorker(Numbers(before), nodeOf, node, n);
      if nodeOf[n - 1] == node {
        WorkerAdded(before, n - 1);
        assert WorkerList(nodeOf, node, n) == (if before == "" then "" else before + " ") + Decimal(n - 1);
      }
    }
  }

  lemma NoNumbers(s: string)
    ensures Numbers(s) == [] <==> s == ""
  {
  }

  // ---------------------------------------------------------------- the records of each section

  ghost predicate BlockRecord(m: Machine, block: Block, r: Fields) {
    && |r| == 2 && r[0] == ("Architecture", m.archName(block.comb))
    && r[1].0 == "NbWorkers" && Numbers(r[1].1) == [block.workers]
  }

  ghost predicate NodeRecord(m: Machine, node: nat, r: Fields) {
    && node < |m.nodes| && 3 <= |r| <= 4
    && r[0].0 == "MemoryNode" && Numbers(r[0].1) == [node]
    && r[1] == ("Name", m.nodes[node].name) && r[2] == ("Size", m.nodes[node].size)
    && (|r| == 4 <==> exists w {:trigger m.nodeOf[w]} :: 0 <= w < |m.nodeOf| && m.nodeOf[w] == node)
    && (|r| == 4 ==> r[3].0 == "Workers" && ListsWorkers(Numbers(r[3].1), m.nodeOf, node))
  }

  ghost predicate PairRecord(m: Machine, at: Label, r: Fields) {
    && |at| == 2 && at[0] < |m.nodes| && at[1] < |m.nodes| && at[0] != at[1]
    && |r| == 4 && r[0].0 == "MemoryNodeSrc" && Numbers(r[0].1) == [at[0]]
    && r[1].0 == "MemoryNodeDst" && Numbers(r[1].1) == [at[1]]
    && r[2] == ("Bandwidth", m.bandwidth(at[0], at[1])) && r[3] == ("Latency", m.latency(at[0], at[1]))
  }

  // ---------------------------------------------------------------- documents as paragraphs

  /** The fields of lines that are neither blank nor titles. */
  function FieldsOf(doc: seq<Line>): (fields: Fields)
    requires forall i {:trigger doc[i]} :: 0 <= i < |doc| ==> doc[i].KeyValue?
    ensures |fields| == |doc|
    ensures forall i {:trigger fields[i]} :: 0 <= i < |doc| ==> fields[i] == (KeyText(doc[i].key), doc[i].value)
  {
    seq(|doc|, i requires 0 <= i < |doc| => (KeyText(doc[i].key), doc[i].value))
  }

  lemma KeyHasNoColon(key: Key)
    ensures ':' !in KeyText(key)
  {
  }

  lemma DocIsParagraph(doc: seq<Line>)
    requires doc != [] && forall i {:trigger doc[i]} :: 0 <= i < |doc| ==> doc[i].KeyValue?
    ensures RenderAll(doc + [Blank]) == Paragraph(FieldsOf(doc)) && PlainKeys(FieldsOf(doc))
  {
    forall i | 0 <= i < |doc|
      ensures ':' !in KeyText(doc[i].key)
    {
      KeyHasNoColon(doc[i].key);
    }
  }

  lemma RenderAppend(a: seq<Line>, b: seq<Line>)
    ensures RenderAll(a + b) == RenderAll(a) + RenderAll(b)
  {
  }

  lemma TitleIsParagraph(section: Section)
    ensures RenderAll([Title(section), Blank]) == Paragraphs([[("%rec", SectionText(section))]])
    ensures PlainKeys([("%rec", SectionText(section))])
  {
    OneParagraph([("%rec", SectionText(section))]);
  }

  /** Each record of the list is written as a paragraph of plain keys. */
  ghost predicate Written(doc: seq<Line>, records: seq<Fields>) {
    && RenderAll(doc) == Paragraphs(records)
    && forall i {:trigger records[i]} :: 0 <= i < |records| ==> PlainKeys(records[i])
  }

  lemma WrittenAppend(a: seq<Line>, ra: seq<Fields>, b: seq<Line>, rb: seq<Fields>)
    requires Written(a, ra) && Written(b, rb)
    ensures Written(a + b, ra + rb)
  {
    RenderAppend(a, b);
    ParagraphsAppend(ra, rb);
  }

  lemma WrittenOne(doc: seq<Line>)
    requires doc != [] && forall i {:trigger doc[i]} :: 0 <= i < |doc| ==> doc[i].KeyValue?
    ensures Written(doc + [Blank], [FieldsOf(doc)])
  {
    DocIsParagraph(doc);
    OneParagraph(FieldsOf(doc));
  }

  lemma WrittenTitle(section: Section)
    ensures Written([Title(section), Blank], [[("%rec", SectionText(section))]])
  {
    TitleIsParagraph(section);
  }

  // ---------------------------------------------------------------- the sections

  /** A section with its title and some records goes on. */
  lemma WrittenNext(
    section: Section, records: seq<Fields>, more: seq<Fields>, doc: seq<Line>, next: seq<Line>)
    requires Written(doc, [[("%rec", SectionText(section))]] + records) && Written(next, more)
    ensures Written(doc + next, [[("%rec", SectionText(section))]] + (records + more))
  {
    var title: seq<Fields> := [[("%rec", SectionText(section))]];
    WrittenAppend(doc, title + records, next, more);
    assert title + (records + more) == (title + records) + more;
  }

  lemma WrittenFirst(section: Section)
    ensures Written([Title(section), Blank], [[("%rec", SectionText(section))]] + [])
  {
    WrittenTitle(section);
    assert [[("%rec", SectionText(section))]] + [] == [[("%rec", SectionText(section))]];
  }

  function BlockLines(m: Machine, block: Block): (doc: seq<Line>)
    ensures doc != [] && forall i {:trigger doc[i]} :: 0 <= i < |doc| ==> doc[i].KeyValue?
  {
    [KeyValue(Architecture, m.archName(block.comb)), KeyValue(NbWorkers, Decimal(block.workers))]
  }

  lemma BlockReadsBack(m: Machine, block: Block)
    ensures BlockRecord(m, block, FieldsOf(BlockLines(m, block)))
  {
    DecimalReadsBack(block.workers);
  }

  lemma {:induction false} BlocksReadBack(m: Machine, blocks: seq<Block>) returns (records: seq<Fields>)
    ensures Written(BlocksDoc(m.archName, blocks), [[("%rec", SectionText(WorkerCount))]] + records)
    ensures |records| == |blocks| && forall k {:trigger records[k]} :: 0 <= k < |blocks| ==>
      BlockRecord(m, blocks[k], records[k])
  {
    if blocks == [] {
      WrittenFirst(WorkerCount);
      records := [];
    } else {
      var first, last := blocks[..|blocks| - 1], blocks[|blocks| - 1];
      var before := BlocksReadBack(m, first);
      var lines := BlockLines(m, last);
      WrittenOne(lines);
      assert BlockDoc(m.archName, last) == lines + [Blank];
      WrittenNext(WorkerCount, before, [FieldsOf(lines)], BlocksDoc(m.archName, first), lines + [Blank]);
      BlockReadsBack(m, last);
      records := before + [FieldsOf(lines)];
    }
  }

  function NodeLines(m: Machine, node: nat): (doc: seq<Line>)
    requires node < |m.nodes|
    ensures doc != [] && forall i {:trigger doc[i]} :: 0 <= i < |doc| ==> doc[i].KeyValue?
  {
    var workers := WorkerList(m.nodeOf, node, |m.nodeOf|);
    [KeyValue(MemoryNodeId, Decimal(node)), KeyValue(Name, m.nodes[node].name), KeyValue(Size, m.nodes[node].size)]
    + if workers == "" then [] else [KeyValue(Workers, workers)]
  }

  lemma NodeReadsBack(m: Machine, node: nat)
    requires node < |m.nodes|
    ensures NodeRecord(m, node, FieldsOf(NodeLines(m, node)))
  {
    var workers := WorkerList(m.nodeOf, node, |m.nodeOf|);
    DecimalReadsBack(node);
    NoNumbers(workers);
    WorkersReadBack(m.nodeOf, node, |m.nodeOf|);
    assert m.nodeOf[..|m.nodeOf|] == m.nodeOf;
    SomeWorker(Numbers(workers), m.nodeOf, node);
  }

  lemma SomeWorker(ids: seq<nat>, nodeOf: seq<nat>, node: nat)
    requires ListsWorkers(ids, nodeOf, node)
    ensures ids != [] <==> exists w {:trigger nodeOf[w]} :: 0 <= w < |nodeOf| && nodeOf[w] == node
  {
    if ids != [] {
      assert ids[0] in ids;
    }
    if w :| 0 <= w < |nodeOf| && nodeOf[w] == node {
      assert w in ids;
    }
  }

  lemma {:induction false} NodesReadBack(m: Machine, n: nat) returns (records: seq<Fields>)
    requires n <= |m.nodes|
    ensures Written(NodesDoc(m, n), [[("%rec", SectionText(MemoryWorkers))]] + records)
    ensures |records| == n && forall node {:trigger records[node]} :: 0 <= node < n ==> NodeRecord(m, node, records[node])
  {
    if n == 0 {
      WrittenFirst(MemoryWorkers);
      records := [];
    } else {
      var before := NodesReadBack(m, n - 1);
      var lines := NodeLines(m, n - 1);
      WrittenOne(lines);
      assert NodeDoc(m, n - 1) == lines + [Blank];
      WrittenNext(MemoryWorkers, before, [FieldsOf(lines)], NodesDoc(m, n - 1), lines + [Blank]);
      NodeReadsBack(m, n - 1);
      records := before + [FieldsOf(lines)];
    }
  }

  /** The lines about one pair of nodes. */
  function PairLines(m: Machine, src: nat, dst: nat): (doc: seq<Line>)
    ensures doc != [] && forall i {:trigger doc[i]} :: 0 <= i < |doc| ==> doc[i].KeyValue?
  {
    [KeyValue(Source, Decimal(src)), KeyValue(Destination, Decimal(dst)),
     KeyValue(Bandwidth, m.bandwidth(src, dst)), KeyValue(Latency, m.latency(src, dst))]
  }

  lemma PairFields(m: Machine, src: nat, dst: nat)
    ensures var r := FieldsOf(PairLines(m, src, dst));
      && |r| == 4 && r[0] == ("MemoryNodeSrc", Decimal(src)) && r[1] == ("MemoryNodeDst", Decimal(dst))
      && r[2] == ("Bandwidth", m.bandwidth(src, dst)) && r[3] == ("Latency", m.latency(src, dst))
  {
  }

  lemma PairReadsBack(m: Machine, src: nat, dst: nat)
    requires src < |m.nodes| && dst < |m.nodes| && src != dst
    ensures PairRecord(m, [src, dst], FieldsOf(PairLines(m, src, dst)))
  {
    PairFields(m, src, dst);
    DecimalReadsBack(src);
    DecimalReadsBack(dst);
  }

  function PairTable(m: Machine, src: nat, dst: nat): (table: seq<Placed<Fields>>) {
    if src == dst then [] else [Placed([], FieldsOf(PairLines(m, src, dst)))]
  }

  lemma PairIsWritten(m: Machine, src: nat, dst: nat)
    ensures Written(PairDoc(m, src, dst), Contents(PairTable(m, src, dst)))
  {
    if src != dst {
      var lines := PairLines(m, src, dst);
      WrittenOne(lines);
      assert PairDoc(m, src, dst) == lines + [Blank];
      assert Contents(PairTable(m, src, dst)) == [FieldsOf(lines)];
    }
  }

  function SourceTables(m: Machine, src: nat, n: nat): (tables: seq<seq<Placed<Fields>>>)
    ensures |tables| == n && forall dst {:trigger tables[dst]} :: 0 <= dst < n ==> tables[dst] == PairTable(m, src, dst)
  {
    seq(n, dst requires 0 <= dst < n => PairTable(m, src, dst))
  }

  lemma NextPair(m: Machine, src: nat, n: nat)
    ensures Contents(Chapters(SourceTables(m, src, n + 1)))
         == Contents(Chapters(SourceTables(m, src, n))) + Contents(PairTable(m, src, n))
  {
    NextChapter(SourceTables(m, src, n), PairTable(m, src, n));
    assert SourceTables(m, src, n + 1) == SourceTables(m, src, n) + [PairTable(m, src, n)];
  }

  lemma {:induction false} SourceReadsBack(m: Machine, src: nat, n: nat)
    ensures Written(SourceDoc(m, src, n), Contents(Chapters(SourceTables(m, src, n))))
  {
    if n != 0 {
      SourceReadsBack(m, src, n - 1);
      PairIsWritten(m, src, n - 1);
      NextPair(m, src, n - 1);
      WrittenAppend(SourceDoc(m, src, n - 1), Contents(Chapters(SourceTables(m, src, n - 1))),
                    PairDoc(m, src, n - 1), Contents(PairTable(m, src, n - 1)));
    }
  }

  function SourceTable(m: Machine, src: nat): (table: seq<Placed<Fields>>) {
    Chapters(SourceTables(m, src, |m.nodes|))
  }

  function AllPairs(m: Machine, n: nat): (tables: seq<seq<Placed<Fields>>>)
    ensures |tables| == n && forall src {:trigger tables[src]} :: 0 <= src < n ==> tables[src] == SourceTable(m, src)
  {
    seq(n, src requires 0 <= src < n => SourceTable(m, src))
  }

  lemma PairsGrow(m: Machine, n: nat)
    ensures AllPairs(m, n + 1) == AllPairs(m, n) + [SourceTable(m, n)]
  {
  }

  lemma NextSource(m: Machine, n: nat)
    ensures Contents(Chapters(AllPairs(m, n + 1))) == Contents(Chapters(AllPairs(m, n))) + Contents(SourceTable(m, n))
  {
    PairsGrow(m, n);
    NextChapter(AllPairs(m, n), SourceTable(m, n));
  }

  lemma {:induction false} PairsReadBack(m: Machine, n: nat)
    ensures Written(PairsDoc(m, n), [[("%rec", SectionText(MemoryPerformance))]] + Contents(Chapters(AllPairs(m, n))))
  {
    if n == 0 {
      WrittenFirst(MemoryPerformance);
      assert Contents(Chapters(AllPairs(m, 0))) == [];
    } else {
      PairsReadBack(m, n - 1);
      SourceReadsBack(m, n - 1, |m.nodes|);
      NextSource(m, n - 1);
      WrittenNext(MemoryPerformance, Contents(Chapters(AllPairs(m, n - 1))), Contents(SourceTable(m, n - 1)),
                  PairsDoc(m, n - 1), SourceDoc(m, n - 1, |m.nodes|));
    }
  }

  lemma PairMembers(m: Machine, src: nat, dst: nat, at: Label, r: Fields)
    ensures Placed(at, r) in PairTable(m, src, dst) <==> src != dst && at == [] && r == FieldsOf(PairLines(m, src, dst))
  {
  }

  lemma SourcePlaces(m: Machine, src: nat)
    requires src < |m.nodes|
    ensures Sorted(SourceTable(m, src))
    ensures forall at, r {:trigger Placed(at, r) in SourceTable(m, src)} :: Placed(at, r) in SourceTable(m, src) <==>
      |at| == 1 && at[0] < |m.nodes| && at[0] != src && r == FieldsOf(PairLines(m, src, at[0]))
  {
    var tables := SourceTables(m, src, |m.nodes|);
    ChaptersSorted(tables);
    forall at, r
      ensures Placed(at, r) in Chapters(tables) <==>
        |at| == 1 && at[0] < |m.nodes| && at[0] != src && r == FieldsOf(PairLines(m, src, at[0]))
    {
      ChaptersMembers(tables, at, r);
      if at != [] && at[0] < |m.nodes| {
        PairMembers(m, src, at[0], at[1..], r);
      }
    }
  }

  /** The pairs are in lexicographic order, each with a record of its own values. */
  lemma PairPlaces(m: Machine)
    ensures var table := Chapters(AllPairs(m, |m.nodes|));
      && Sorted(table)
      && (forall i {:trigger table[i]} :: 0 <= i < |table| ==> PairRecord(m, table[i].at, table[i].item))
      && (forall a: nat, b: nat {:trigger [a, b]} :: a < |m.nodes| && b < |m.nodes| && a != b ==> [a, b] in Labels(table))
  {
    var tables := AllPairs(m, |m.nodes|);
    var table := Chapters(tables);
    forall src: nat | src < |m.nodes|
      ensures Sorted(tables[src])
    {
      SourcePlaces(m, src);
    }
    ChaptersSorted(tables);
    forall i | 0 <= i < |table|
      ensures PairRecord(m, table[i].at, table[i].item)
    {
      PairPlace(m, table[i].at, table[i].item);
    }
    forall a: nat, b: nat | a < |m.nodes| && b < |m.nodes| && a != b
      ensures [a, b] in Labels(table)
    {
      PairListed(m, a, b);
    }
  }

  lemma PairListed(m: Machine, a: nat, b: nat)
    requires a < |m.nodes| && b < |m.nodes| && a != b
    ensures [a, b] in Labels(Chapters(AllPairs(m, |m.nodes|)))
  {
    var tables, r := AllPairs(m, |m.nodes|), FieldsOf(PairLines(m, a, b));
    SourcePlaces(m, a);
    assert [a, b][1..] == [b] && Placed([b], r) in tables[a];
    ChaptersMembers(tables, [a, b], r);
    InLabels(Chapters(tables), [a, b], r);
  }

  lemma PairPlace(m: Machine, at: Label, r: Fields)
    requires Placed(at, r) in Chapters(AllPairs(m, |m.nodes|))
    ensures PairRecord(m, at, r)
  {
    ChaptersMembers(AllPairs(m, |m.nodes|), at, r);
    SourcePlaces(m, at[0]);
    assert at == [at[0], at[1..][0]];
    PairReadsBack(m, at[0], at[1]);
  }

  // ---------------------------------------------------------------- the whole document

  /** Reading back what is printed about the platform gives: the blocks of workers; for each memory node, in order, its
      number, name, size and exactly its workers; and for each ordered pair of different nodes, once each and in
      lexicographic order, their numbers and the bandwidth and latency from the first to the second. */
  lemma PlatformReadsBack(m: Machine)
    returns (blocks: seq<Block>, blockRecords: seq<Fields>, nodeRecords: seq<Fields>, pairs: seq<Placed<Fields>>)
    ensures ReadRecords(PlatformLines(m), []) ==
      [[("%rec", "worker_count")]] + blockRecords + ([[("%rec", "memory_workers")]] + nodeRecords)
      + ([[("%rec", "memory_performance")]] + Contents(pairs))
    ensures Maximal(blocks) && Expand(blocks) == Present(m.combs)
    ensures |blockRecords| == |blocks|
    ensures forall k {:trigger blockRecords[k]} :: 0 <= k < |blocks| ==> BlockRecord(m, blocks[k], blockRecords[k])
    ensures |nodeRecords| == |m.nodes|
    ensures forall n {:trigger nodeRecords[n]} :: 0 <= n < |m.nodes| ==> NodeRecord(m, n, nodeRecords[n])
    ensures Sorted(pairs)
    ensures forall i {:trigger pairs[i]} :: 0 <= i < |pairs| ==> PairRecord(m, pairs[i].at, pairs[i].item)
    ensures forall a: nat, b: nat {:trigger [a, b]} :: a < |m.nodes| && b < |m.nodes| && a != b ==> [a, b] in Labels(pairs)
  {
    blocks := BlocksOf(m.combs);
    blockRecords := BlocksReadBack(m, blocks);
    nodeRecords := NodesReadBack(m, |m.nodes|);
    pairs := Chapters(AllPairs(m, |m.nodes|));
    PairsReadBack(m, |m.nodes|);
    PairPlaces(m);
    var b := [[("%rec", SectionText(WorkerCount))]] + blockRecords;
    var n := [[("%rec", SectionText(MemoryWorkers))]] + nodeRecords;
    var p := [[("%rec", SectionText(MemoryPerformance))]] + Contents(pairs);
    WrittenAppend(BlocksDoc(m.archName, blocks), b, NodesDoc(m, |m.nodes|), n);
    WrittenAppend(BlocksDoc(m.archName, blocks) + NodesDoc(m, |m.nodes|), b + n, PairsDoc(m, |m.nodes|), p);
    ParagraphsReadBack(b + n + p);
  }
}
