/** What `print_archs` of starpu_perfmodel_recdump writes: the workers of each architecture, the memory nodes with their
    workers, and the transfer performance between memory nodes. */
module Platform {
  import opened RecText
  import opened RecWriter
  import opened WorkerCounts

  /** A memory node; its size enters as text. */
  datatype MemoryNode = MemoryNode(name: string, size: string)

  /** `combs` and `nodeOf` give the combination and the memory node of each worker; bandwidths and latencies enter as
      text. */
  datatype Machine = Machine(
    combs: seq<int>, archName: nat -> string, nodes: seq<MemoryNode>, nodeOf: seq<nat>,
    bandwidth: (nat, nat) -> string, latency: (nat, nat) -> string)

  // ---------------------------------------------------------------- lines

  datatype Section = WorkerCount | MemoryWorkers | MemoryPerformance

  function SectionText(section: Section): (s: string) {
    match section
    case WorkerCount => "worker_count"
    case MemoryWorkers => "memory_workers"
    case MemoryPerformance => "memory_performance"
  }

  datatype Key =
    | Architecture | NbWorkers
    | MemoryNodeId | Name | Size | Workers
    | Source | Destination | Bandwidth | Latency

  function KeyText(key: Key): (s: string) {
    match key
    case Architecture => "Architecture"
    case NbWorkers => "NbWorkers"
    case MemoryNodeId => "MemoryNode"
    case Name => "Name"
    case Size => "Size"
    case Workers => "Workers"
    case Source => "MemoryNodeSrc"
    case Destination => "MemoryNodeDst"
    case Bandwidth => "Bandwidth"
    case Latency => "Latency"
  }

  datatype Line = Blank | Title(section: Section) | KeyValue(key: Key, value: string)

  function Render(line: Line): (s: string) {
    match line
    case Blank => "\n"
    case Title(section) => Field("%rec", SectionText(section))
    case KeyValue(key, value) => Field(KeyText(key), value)
  }

  function RenderAll(doc: seq<Line>): (lines: seq<string>)
    ensures |lines| == |doc| && forall i :: 0 <= i < |doc| ==> lines[i] == Render(doc[i])
  {
    seq(|doc|, i requires 0 <= i < |doc| => Render(doc[i]))
  }

  // ---------------------------------------------------------------- the three sections

  function Decimal(n: nat): (s: string) {
    (if n < 10 then "" else Decimal(n / 10)) + ["0123456789"[n % 10]]
  }

  lemma {:induction false} DecimalIsOneLine(n: nat)
    ensures OneLine(Decimal(n))
  {
    if n >= 10 {
      DecimalIsOneLine(n / 10);
    }
  }

  function BlockDoc(archName: nat -> string, block: Block): (doc: seq<Line>) {
    [KeyValue(Architecture, archName(block.comb)), KeyValue(NbWorkers, Decimal(block.workers)), Blank]
  }

  function BlocksDoc(archName: nat -> string, blocks: seq<Block>): (doc: seq<Line>) {
    if blocks == [] then [Title(WorkerCount), Blank]
    else
      var last := blocks[|blocks| - 1];
      BlocksDoc(archName, blocks[..|blocks| - 1]) + BlockDoc(archName, last)
  }

  /** The workers of a node among the first n, separated by spaces. */
  function WorkerList(nodeOf: seq<nat>, node: nat, n: nat): (s: string)
    requires n <= |nodeOf|
  {
    if n == 0 then ""
    else
      var before := WorkerList(nodeOf, node, n - 1);
      if nodeOf[n - 1] != node then before
      else if before == "" then Decimal(n - 1)
      else before + " " + Decimal(n - 1)
  }

  function NodeDoc(m: Machine, node: nat): (doc: seq<Line>)
    requires node < |m.nodes|
  {
    var workers := WorkerList(m.nodeOf, node, |m.nodeOf|);
    [KeyValue(MemoryNodeId, Decimal(node)), KeyValue(Name, m.nodes[node].name), KeyValue(Size, m.nodes[node].size)]
    + (if workers == "" then [] else [KeyValue(Workers, workers)]) + [Blank]
  }

  function NodesDoc(m: Machine, n: nat): (doc: seq<Line>)
    requires n <= |m.nodes|
  {
    if n == 0 then [Title(MemoryWorkers), Blank] else NodesDoc(m, n - 1) + NodeDoc(m, n - 1)
  }

  function PairDoc(m: Machine, src: nat, dst: nat): (doc: seq<Line>) {
    if src == dst then []
    else
      [KeyValue(Source, Decimal(src)), KeyValue(Destination, Decimal(dst)),
       KeyValue(Bandwidth, m.bandwidth(src, dst)), KeyValue(Latency, m.latency(src, dst)), Blank]
  }

  function SourceDoc(m: Machine, src: nat, n: nat): (doc: seq<Line>) {
    if n == 0 then [] else SourceDoc(m, src, n - 1) + PairDoc(m, src, n - 1)
  }

  function PairsDoc(m: Machine, n: nat): (doc: seq<Line>) {
    if n == 0 then [Title(MemoryPerformance), Blank]
    else PairsDoc(m, n - 1) + SourceDoc(m, n - 1, |m.nodes|)
  }

  function PlatformDoc(m: Machine): (doc: seq<Line>) {
    BlocksDoc(m.archName, BlocksOf(m.combs)) + NodesDoc(m, |m.nodes|) + PairsDoc(m, |m.nodes|)
  }

  function PlatformLines(m: Machine): (lines: seq<string>) {
    RenderAll(PlatformDoc(m))
  }

  // ---------------------------------------------------------------- the loops

  lemma NextBlock(archName: nat -> string, blocks: seq<Block>, k: nat)
    requires k < |blocks|
    ensures BlocksDoc(archName, blocks[..k + 1]) == BlocksDoc(archName, blocks[..k]) + BlockDoc(archName, blocks[k])
  {
    assert blocks[..k + 1][..k] == blocks[..k];
  }

  method PrintBlocks(m: Machine) returns (doc: seq<Line>)
    ensures doc == BlocksDoc(m.archName, BlocksOf(m.combs))
  {
    var blocks := CountWorkers(m.combs);
    doc := [Title(WorkerCount), Blank];
    for k := 0 to |blocks|
      invariant doc == BlocksDoc(m.archName, blocks[..k])
    {
      NextBlock(m.archName, blocks, k);
      doc := doc + BlockDoc(m.archName, blocks[k]);
    }
    assert blocks[..|blocks|] == blocks;
  }

  method PrintNode(m: Machine, node: nat) returns (doc: seq<Line>)
    requires node < |m.nodes|
    ensures doc == NodeDoc(m, node)
  {
    doc := [
      KeyValue(MemoryNodeId, Decimal(node)), KeyValue(Name, m.nodes[node].name), KeyValue(Size, m.nodes[node].size)];
    var printed, workers := false, "";
    for worker := 0 to |m.nodeOf|
      invariant workers == WorkerList(m.nodeOf, node, worker) && (printed <==> workers != "")
    {
      if m.nodeOf[worker] == node {
        workers := (if printed then workers + " " else "") + Decimal(worker);
        printed := true;
      }
    }
    if printed {
      doc := doc + [KeyValue(Workers, workers)];
    }
    doc := doc + [Blank];
  }

  method PrintNodes(m: Machine) returns (doc: seq<Line>)
    ensures doc == NodesDoc(m, |m.nodes|)
  {
    doc := [Title(MemoryWorkers), Blank];
    for node := 0 to |m.nodes|
      invariant doc == NodesDoc(m, node)
    {
      var more := PrintNode(m, node);
      doc := doc + more;
    }
  }

  method PrintSource(m: Machine, src: nat) returns (doc: seq<Line>)
    ensures doc == SourceDoc(m, src, |m.nodes|)
  {
    doc := [];
    for dst := 0 to |m.nodes|
      invariant doc == SourceDoc(m, src, dst)
    {
      if src != dst {
        doc := doc + [KeyValue(Source, Decimal(src)), KeyValue(Destination, Decimal(dst)),
                      KeyValue(Bandwidth, m.bandwidth(src, dst)), KeyValue(Latency, m.latency(src, dst)), Blank];
      }
    }
  }

  method PrintPairs(m: Machine) returns (doc: seq<Line>)
    ensures doc == PairsDoc(m, |m.nodes|)
  {
    doc := [Title(MemoryPerformance), Blank];
    for src := 0 to |m.nodes|
      invariant doc == PairsDoc(m, src)
    {
      var more := PrintSource(m, src);
      doc := doc + more;
    }
  }

  method PrintArchs(m: Machine) returns (lines: seq<string>)
    ensures lines == PlatformLines(m)
  {
    var blocks := PrintBlocks(m);
    var nodes := PrintNodes(m);
    var pairs := PrintPairs(m);
    lines := RenderAll(blocks + nodes + pairs);
  }

  // ---------------------------------------------------------------- none of it says anything to the reader

  /** The texts that come from elsewhere are on one line each. */
  ghost predicate OneLineTexts(m: Machine) {
    && (forall comb {:trigger m.archName(comb)} :: OneLine(m.archName(comb)))
    && (forall i {:trigger m.nodes[i]} :: 0 <= i < |m.nodes| ==> OneLine(m.nodes[i].name) && OneLine(m.nodes[i].size))
    && (forall a, b {:trigger m.bandwidth(a, b)} :: OneLine(m.bandwidth(a, b)))
    && (forall a, b {:trigger m.latency(a, b)} :: OneLine(m.latency(a, b)))
  }

  ghost predicate OneLineValues(doc: seq<Line>) {
    forall i {:trigger doc[i]} :: 0 <= i < |doc| && doc[i].KeyValue? ==> OneLine(doc[i].value)
  }

  lemma OneLineAppend(a: seq<Line>, b: seq<Line>)
    requires OneLineValues(a) && OneLineValues(b)
    ensures OneLineValues(a + b)
  {
  }

  lemma {:induction false} BlocksOneLine(m: Machine, blocks: seq<Block>)
    requires OneLineTexts(m)
    ensures OneLineValues(BlocksDoc(m.archName, blocks))
  {
    if blocks != [] {
      BlocksOneLine(m, blocks[..|blocks| - 1]);
      DecimalIsOneLine(blocks[|blocks| - 1].workers);
    }
  }

  lemma {:induction false} WorkerListIsOneLine(nodeOf: seq<nat>, node: nat, n: nat)
    requires n <= |nodeOf|
    ensures OneLine(WorkerList(nodeOf, node, n))
  {
    if n != 0 {
      WorkerListIsOneLine(nodeOf, node, n - 1);
      DecimalIsOneLine(n - 1);
    }
  }

  lemma {:induction false} NodesOneLine(m: Machine, n: nat)
    requires OneLineTexts(m) && n <= |m.nodes|
    ensures OneLineValues(NodesDoc(m, n))
  {
    if n != 0 {
      NodesOneLine(m, n - 1);
      DecimalIsOneLine(n - 1);
      WorkerListIsOneLine(m.nodeOf, n - 1, |m.nodeOf|);
      assert OneLineValues(NodeDoc(m, n - 1));
    }
  }

  lemma {:induction false} SourceOneLine(m: Machine, src: nat, n: nat)
    requires OneLineTexts(m)
    ensures OneLineValues(SourceDoc(m, src, n))
  {
    if n != 0 {
      SourceOneLine(m, src, n - 1);
      DecimalIsOneLine(src);
      DecimalIsOneLine(n - 1);
      assert OneLineValues(PairDoc(m, src, n - 1));
    }
  }

  lemma {:induction false} PairsOneLine(m: Machine, n: nat)
    requires OneLineTexts(m)
    ensures OneLineValues(PairsDoc(m, n))
  {
    if n != 0 {
      PairsOneLine(m, n - 1);
      SourceOneLine(m, n - 1, |m.nodes|);
      OneLineAppend(PairsDoc(m, n - 1), SourceDoc(m, n - 1, |m.nodes|));
    }
  }

  lemma KeyIsQuiet(key: Key, value: string)
    requires OneLine(value)
    ensures IsLine(Field(KeyText(key), value)) && Neutral(Field(KeyText(key), value))
  {
    FieldIsNeutral(KeyText(key), value);
  }

  /** No key of these lines is one that the reader knows. */
  lemma LineIsGood(line: Line)
    requires line.KeyValue? ==> OneLine(line.value)
    ensures GoodItem(Plain(Render(line)))
  {
    match line {
      case Blank =>
      case Title(section) => FieldIsNeutral("%rec", SectionText(section));
      case KeyValue(key, value) => KeyIsQuiet(key, value);
    }
  }

  /** Every line of the three sections is blank, or names no model and no footprint. */
  lemma PlatformIsSilent(m: Machine)
    requires OneLineTexts(m)
    ensures forall l {:trigger l in PlatformLines(m)} :: l in PlatformLines(m) ==> GoodItem(Plain(l))
  {
    var doc := PlatformDoc(m);
    BlocksOneLine(m, BlocksOf(m.combs));
    NodesOneLine(m, |m.nodes|);
    PairsOneLine(m, |m.nodes|);
    assert OneLineValues(doc);
    forall l | l in PlatformLines(m)
      ensures GoodItem(Plain(l))
    {
      var i :| 0 <= i < |doc| && RenderAll(doc)[i] == l;
      LineIsGood(doc[i]);
    }
  }
}
