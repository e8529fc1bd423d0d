/** Writing a rec file, tools/starpu_perfmodel_recdump.c, and reading it back. Numbers other than footprints and worker
    counts enter as the text that `fprintf` makes of them. */
module RecWriter {
  import opened Wrappers
  import opened RecText
  import opened RecReader
  import opened RecMeaning

  /** `struct starpu_perfmodel_history_entry`; `flops` is absent when it is not a number. */
  datatype Entry = Entry(
    footprint: nat, size: string, flops: Option<string>, mean: string, deviation: string, samples: string)

  /** What the output consists of: records of entries, and other lines. */
  datatype Item = Plain(line: string) | Record(name: string, arch: string, entry: Entry)

  function Field(key: string, value: string): (line: string) {
    key + ": " + value + "\n"
  }

  function DetailLines(e: Entry): (lines: seq<string>) {
    [Field("Size", e.size)] + (if e.flops.Some? then [Field("Flops", e.flops.value)] else [])
    + [Field("Mean", e.mean), Field("Stddev", e.deviation), Field("Samples", e.samples)]
  }

  function KeyLines(name: string, arch: string, footprint: nat): (lines: seq<string>) {
    [Field("Model", name), Field("Architecture", arch), Field("Footprint", ToHex(footprint, 8))]
  }

  /** `print_entry`. */
  function ItemLines(item: Item): (lines: seq<string>) {
    match item
    case Plain(line) => [line]
    case Record(name, arch, e) => KeyLines(name, arch, e.footprint) + DetailLines(e) + ["\n"]
  }

  function DocLines(items: seq<Item>): (lines: seq<string>) {
    if items == [] then [] else DocLines(items[..|items| - 1]) + ItemLines(items[|items| - 1])
  }

  function Text(items: seq<Item>): (text: string) {
    Concat(DocLines(items))
  }

  // ---------------------------------------------------------------- well-formed items

  ghost predicate OneLine(s: string) {
    '\n' !in s && '\0' !in s
  }

  /** A line that says nothing to the reader. */
  ghost predicate Neutral(line: string) {
    !IsBlank(line) && !IsModel(line) && !IsFootprint(line) && ':' in line
  }

  ghost predicate GoodEntry(e: Entry) {
    && e.footprint < UINT32 && OneLine(e.size) && (e.flops.Some? ==> OneLine(e.flops.value))
    && OneLine(e.mean) && OneLine(e.deviation) && OneLine(e.samples)
  }

  ghost predicate GoodItem(item: Item) {
    match item
    case Plain(line) => IsLine(line) && (IsBlank(line) || Neutral(line))
    case Record(name, arch, e) => OneLine(name) && OneLine(arch) && GoodEntry(e)
  }

  ghost predicate GoodItems(items: seq<Item>) {
    forall i {:trigger items[i]} :: 0 <= i < |items| ==> GoodItem(items[i])
  }

  lemma FieldIsLine(key: string, value: string)
    requires OneLine(key) && OneLine(value) && key != ""
    ensures IsLine(Field(key, value)) && !IsBlank(Field(key, value))
    ensures ':' in Field(key, value)
  {
    var line := Field(key, value);
    assert line[0] == key[0] && key[0] in key;
    assert line[|key|] == ':';
    forall i | 0 <= i < |line| - 1
      ensures line[i] != '\n'
    {
      assert i < |key| ==> line[i] == key[i] && key[i] in key;
      assert i >= |key| + 2 ==> line[i] == value[i - |key| - 2] && value[i - |key| - 2] in value;
    }
  }

  lemma FieldIsNeutral(key: string, value: string)
    requires OneLine(key) && OneLine(value) && |key| >= 2 && (key[0] !in {'M', 'F'} || key[1] != 'o')
    ensures IsLine(Field(key, value)) && Neutral(Field(key, value))
  {
    var line := Field(key, value);
    FieldIsLine(key, value);
    assert line[0] == key[0] && line[1] == key[1];
    assert "Model: "[0] == 'M' && "Model: "[1] == 'o' && "Footprint: "[0] == 'F' && "Footprint: "[1] == 'o';
  }

  lemma DetailsAreNeutral(e: Entry)
    requires GoodEntry(e)
    ensures forall l {:trigger l in DetailLines(e)} :: l in DetailLines(e) ==> IsLine(l) && Neutral(l)
  {
    FieldIsNeutral("Size", e.size);
    if e.flops.Some? {
      FieldIsNeutral("Flops", e.flops.value);
    }
    FieldIsNeutral("Mean", e.mean);
    FieldIsNeutral("Stddev", e.deviation);
    FieldIsNeutral("Samples", e.samples);
  }

  lemma DigitsAreOneLine(digits: string)
    requires HexDigits(digits)
    ensures OneLine(digits)
  {
  }

  lemma HexIsOneLine(n: nat, width: nat)
    ensures OneLine(ToHex(n, width))
  {
    assert HexDigits(ToHex(n, width));
    DigitsAreOneLine(ToHex(n, width));
  }

  lemma KeyIsLines(name: string, arch: string, footprint: nat)
    requires OneLine(name) && OneLine(arch)
    ensures forall l {:trigger l in KeyLines(name, arch, footprint)} :: l in KeyLines(name, arch, footprint) ==> IsLine(l)
  {
    HexIsOneLine(footprint, 8);
    FieldIsLine("Model", name);
    FieldIsLine("Architecture", arch);
    FieldIsLine("Footprint", ToHex(footprint, 8));
  }

  lemma ItemIsLines(item: Item)
    requires GoodItem(item)
    ensures forall l {:trigger l in ItemLines(item)} :: l in ItemLines(item) ==> IsLine(l)
  {
    if item.Record? {
      KeyIsLines(item.name, item.arch, item.entry.footprint);
      DetailsAreNeutral(item.entry);
    }
  }

  lemma {:induction false} DocIsLines(items: seq<Item>)
    requires GoodItems(items)
    ensures forall l {:trigger l in DocLines(items)} :: l in DocLines(items) ==> IsLine(l)
  {
    if items != [] {
      DocIsLines(items[..|items| - 1]);
      ItemIsLines(items[|items| - 1]);
    }
  }

  // ---------------------------------------------------------------- reading an item back

  function ReadMore(load: string -> bool, s: State, lines: seq<string>): (r: Result<State>)
    decreases |lines|
  {
    if lines == [] then Ok(s)
    else
      match ReadLine(load, s, lines[0])
      case Failed(fault) => Failed(fault)
      case Ok(s') => ReadMore(load, s', lines[1..])
  }

  lemma {:induction false} ReadAppend(load: string -> bool, s: State, a: seq<string>, b: seq<string>)
    ensures ReadMore(load, s, a + b) ==
            match ReadMore(load, s, a) case Failed(fault) => Failed(fault) case Ok(s') => ReadMore(load, s', b)
    decreases |a|
  {
    if a == [] {
      assert a + b == b;
    } else {
      assert (a + b)[0] == a[0] && (a + b)[1..] == a[1..] + b;
      if ReadLine(load, s, a[0]).Ok? {
        ReadAppend(load, ReadLine(load, s, a[0]).value, a[1..], b);
      }
    }
  }

  lemma ReadOne(load: string -> bool, s: State, line: string)
    ensures ReadMore(load, s, [line]) == ReadLine(load, s, line)
  {
    assert [line][1..] == [];
  }

  lemma {:induction false} ReadMoreIsReadLines(load: string -> bool, lines: seq<string>)
    ensures ReadLines(load, lines) == ReadMore(load, FRESH, lines)
  {
    if lines != [] {
      var n := |lines| - 1;
      ReadMoreIsReadLines(load, lines[..n]);
      assert lines == lines[..n] + [lines[n]];
      ReadAppend(load, FRESH, lines[..n], [lines[n]]);
      if ReadLines(load, lines[..n]).Ok? {
        ReadOne(load, ReadLines(load, lines[..n]).value, lines[n]);
      }
    }
  }

  ghost predicate Short(lines: seq<string>) {
    forall l {:trigger l in lines} :: l in lines ==> |l| < LINE_MAX
  }

  lemma {:induction false} ReadNeutral(load: string -> bool, s: State, lines: seq<string>)
    requires Short(lines) && forall l {:trigger l in lines} :: l in lines ==> Neutral(l)
    ensures ReadMore(load, s, lines) == Ok(s)
    decreases |lines|
  {
    if lines != [] {
      assert lines[0] in lines;
      assert forall l {:trigger l in lines[1..]} :: l in lines[1..] ==> l in lines;
      ReadNeutral(load, s, lines[1..]);
    }
  }

  lemma FieldParts(key: string, value: string)
    ensures key + ": " <= Field(key, value) && Field(key, value)[|key| + 2..] == value + "\n"
  {
  }

  lemma ReadModel(load: string -> bool, s: State, name: string)
    requires OneLine(name) && |Field("Model", name)| < LINE_MAX
    ensures ReadLine(load, s, Field("Model", name)) == Ok(s.(modelName := Some(name)))
  {
    var line := Field("Model", name);
    FieldIsLine("Model", name);
    assert "Model: " <= line && line[0] == 'M' && "Footprint: "[0] == 'F';
    assert NameOf(line) == name;
  }

  /** A line with hexadecimal digits, however many: the footprint is what they stand for, on 32 bits. */
  lemma ReadDigits(load: string -> bool, s: State, digits: string)
    requires digits != "" && HexDigits(digits) && |Field("Footprint", digits)| < LINE_MAX
    ensures ReadLine(load, s, Field("Footprint", digits)) == Ok(s.(footprint := Clamped(Positional(digits)) % UINT32))
  {
    var line := Field("Footprint", digits);
    DigitsAreOneLine(digits);
    FieldIsLine("Footprint", digits);
    FieldParts("Footprint", digits);
    assert "Footprint" + ": " == "Footprint: ";
    DigitsReadBack(digits, "\n");
  }

  lemma SmallNumber(n: nat)
    requires n < UINT32
    ensures Clamped(n) % UINT32 == n
  {
  }

  lemma ReadPadded(load: string -> bool, s: State, n: nat, digits: string)
    requires n < UINT32 && HexDigits(digits) && 0 < |digits| < 1000 && Positional(digits) == n
    ensures ReadLine(load, s, Field("Footprint", digits)) == Ok(s.(footprint := n))
  {
    assert |Field("Footprint", digits)| == |digits| + 12;
    ReadDigits(load, s, digits);
    SmallNumber(n);
  }

  lemma ReadFootprint(load: string -> bool, s: State, n: nat)
    requires n < UINT32
    ensures ReadLine(load, s, Field("Footprint", ToHex(n, 8))) == Ok(s.(footprint := n))
  {
    EightDigits();
    PositionalOfToHex(n, 8);
    ReadPadded(load, s, n, ToHex(n, 8));
  }

  ghost predicate AllLoad(load: string -> bool, models: seq<Model>) {
    forall i {:trigger models[i]} :: 0 <= i < |models| ==> load(models[i].name)
  }

  lemma ReadKey(load: string -> bool, s: State, name: string, arch: string, f: nat)
    requires OneLine(name) && OneLine(arch) && f < UINT32 && Short(KeyLines(name, arch, f))
    ensures ReadMore(load, s, KeyLines(name, arch, f)) == Ok(s.(modelName := Some(name), footprint := f))
  {
    var lines := KeyLines(name, arch, f);
    assert lines[0] in lines && lines[1] in lines;
    var s1 := s.(modelName := Some(name));
    ReadModel(load, s, name);
    ReadOne(load, s, lines[0]);
    FieldIsNeutral("Architecture", arch);
    ReadNeutral(load, s1, [lines[1]]);
    ReadFootprint(load, s1, f);
    ReadOne(load, s1, lines[2]);
    ReadAppend(load, s1, [lines[1]], [lines[2]]);
    ReadAppend(load, s, [lines[0]], [lines[1]] + [lines[2]]);
    assert lines == [lines[0]] + ([lines[1]] + [lines[2]]);
  }

  /** What an item does to the reader, between records. */
  function ItemRead(load: string -> bool, s: State, item: Item): (r: Result<State>) {
    match item
    case Plain(_) => Ok(s)
    case Record(name, _, e) =>
      if load(name) then Ok(State(e.footprint, None, WithRecord(s.models, name, e.footprint)))
      else Failed(NotLoaded(name))
  }

  lemma ReadEnd(load: string -> bool, s: State, name: string)
    requires s.modelName == Some(name) && AllLoad(load, s.models)
    ensures ReadMore(load, s, ["\n"]) ==
            if load(name) then Ok(State(s.footprint, None, WithRecord(s.models, name, s.footprint)))
            else Failed(NotLoaded(name))
  {
    var i := Find(s.models, name);
    assert i < |s.models| ==> load(s.models[i].name);
    assert ["\n"][1..] == [];
  }

  lemma ReadItem(load: string -> bool, s: State, item: Item)
    requires GoodItem(item) && Short(ItemLines(item)) && s.modelName == None && AllLoad(load, s.models)
    ensures ReadMore(load, s, ItemLines(item)) == ItemRead(load, s, item)
  {
    match item {
      case Plain(line) =>
        assert line in ItemLines(item) && [line][1..] == [];
      case Record(name, arch, e) =>
        var key, details := KeyLines(name, arch, e.footprint), DetailLines(e);
        assert forall l {:trigger l in key} :: l in key ==> l in ItemLines(item);
        assert forall l {:trigger l in details} :: l in details ==> l in ItemLines(item);
        ReadKey(load, s, name, arch, e.footprint);
        DetailsAreNeutral(e);
        var s1 := s.(modelName := Some(name), footprint := e.footprint);
        ReadNeutral(load, s1, details);
        ReadAppend(load, s, key, details);
        ReadAppend(load, s, key + details, ["\n"]);
        ReadEnd(load, s1, name);
    }
  }

  // ---------------------------------------------------------------- reading a document back

  /** What reading should collect. */
  function Collected(items: seq<Item>): (models: seq<Model>) {
    if items == [] then []
    else
      var models := Collected(items[..|items| - 1]);
      match items[|items| - 1]
      case Plain(_) => models
      case Record(name, _, e) => WithRecord(models, name, e.footprint)
  }

  ghost predicate HasRecord(items: seq<Item>, name: string, f: nat) {
    exists i {:trigger items[i]} :: 0 <= i < |items| && items[i].Record? && items[i].name == name
      && items[i].entry.footprint == f
  }

  ghost predicate Loadable(load: string -> bool, items: seq<Item>) {
    forall i {:trigger items[i]} :: 0 <= i < |items| && items[i].Record? ==> load(items[i].name)
  }

  lemma {:induction false} CollectedMeaning(load: string -> bool, items: seq<Item>)
    ensures Tidy(Collected(items))
    ensures Loadable(load, items) ==> AllLoad(load, Collected(items))
    ensures forall name, f {:trigger Listed(Collected(items), name, f)} ::
      Listed(Collected(items), name, f) <==> HasRecord(items, name, f)
  {
    if items != [] {
      var n := |items| - 1;
      var first, item := items[..n], items[n];
      CollectedMeaning(load, first);
      if item.Record? {
        RecordTidy(Collected(first), item.name, item.entry.footprint);
      }
      forall name, f
        ensures Listed(Collected(items), name, f) <==> HasRecord(items, name, f)
      {
        assert HasRecord(items, name, f) <==>
          HasRecord(first, name, f) || (item.Record? && item.name == name && item.entry.footprint == f);
        if item.Record? {
          RecordListed(Collected(first), item.name, item.entry.footprint, name, f);
        }
      }
    }
  }

  function DocRead(load: string -> bool, items: seq<Item>): (r: Result<State>) {
    if items == [] then Ok(FRESH)
    else
      match DocRead(load, items[..|items| - 1])
      case Failed(fault) => Failed(fault)
      case Ok(s) => ItemRead(load, s, items[|items| - 1])
  }

  lemma {:induction false} DocReadMeaning(load: string -> bool, items: seq<Item>)
    ensures DocRead(load, items).Ok? <==> Loadable(load, items)
    ensures DocRead(load, items).Ok? ==>
      var s := DocRead(load, items).value; s.modelName == None && s.models == Collected(items)
  {
    if items != [] {
      var n := |items| - 1;
      DocReadMeaning(load, items[..n]);
      LoadableParts(load, items);
    }
  }

  lemma LoadableParts(load: string -> bool, items: seq<Item>)
    requires items != []
    ensures var n := |items| - 1;
      Loadable(load, items) <==> Loadable(load, items[..n]) && (items[n].Record? ==> load(items[n].name))
  {
    var first := items[..|items| - 1];
    assert forall i {:trigger items[i]} {:trigger first[i]} :: 0 <= i < |first| ==> first[i] == items[i];
  }

  lemma {:induction false} ReadDoc(load: string -> bool, items: seq<Item>)
    requires GoodItems(items) && Short(DocLines(items))
    ensures ReadMore(load, FRESH, DocLines(items)) == DocRead(load, items)
  {
    if items != [] {
      var n := |items| - 1;
      var lines, more := DocLines(items[..n]), ItemLines(items[n]);
      ShortParts(lines, more);
      ReadDoc(load, items[..n]);
      ReadAppend(load, FRESH, lines, more);
      if DocRead(load, items[..n]).Ok? {
        DocReadMeaning(load, items[..n]);
        CollectedMeaning(load, items[..n]);
        ReadItem(load, DocRead(load, items[..n]).value, items[n]);
      }
    }
  }

  lemma ShortParts(a: seq<string>, b: seq<string>)
    requires Short(a + b)
    ensures Short(a) && Short(b)
  {
    assert forall l {:trigger l in a} :: l in a ==> l in a + b;
    assert forall l {:trigger l in b} :: l in b ==> l in a + b;
  }

  /** Round trip of the whole tool, character by character: what is written can be read back exactly when no line fills
      the reader's buffer and every model named can be loaded; and then the reader lists exactly the models and footprints
      of the records written. */
  lemma WriteThenRead(load: string -> bool, items: seq<Item>)
    requires GoodItems(items)
    ensures ReadText(load, Text(items)).Ok? <==> Short(DocLines(items)) && Loadable(load, items)
    ensures ReadText(load, Text(items)).Ok? ==>
      var models := ReadText(load, Text(items)).value.models;
      && models == Collected(items) && Tidy(models)
      && forall name, f {:trigger Listed(models, name, f)} :: Listed(models, name, f) <==> HasRecord(items, name, f)
  {
    var lines := DocLines(items);
    DocIsLines(items);
    if Short(lines) {
      ChunksOfLines(lines);
      LinesAreStrings(lines);
      ReadMoreIsReadLines(load, lines);
      ReadDoc(load, items);
      DocReadMeaning(load, items);
      CollectedMeaning(load, items);
    } else {
      var k := FirstLong(lines);
      assert lines[k] in lines;
      var m := LongLineFillsBuffer(lines, k);
      var chunks := Chunks(Text(items));
      assert '\0' !in chunks[m];
      assert |CStrings(chunks)[m]| == LINE_MAX;
      ReadFindsWhatIsWanted(load, CStrings(chunks));
    }
  }

  lemma LinesAreStrings(lines: seq<string>)
    requires forall l {:trigger l in lines} :: l in lines ==> IsLine(l)
    ensures CStrings(lines) == lines
  {
    forall i | 0 <= i < |lines|
      ensures CString(lines[i]) == lines[i]
    {
      assert lines[i] in lines;
    }
  }

  lemma {:induction false} FirstLong(lines: seq<string>) returns (k: nat)
    requires !Short(lines)
    ensures k < |lines| && |lines[k]| >= LINE_MAX && forall i :: 0 <= i < k ==> |lines[i]| < LINE_MAX
    decreases |lines|
  {
    if |lines[0]| >= LINE_MAX {
      k := 0;
    } else {
      assert exists l :: l in lines && |l| >= LINE_MAX;
      assert lines == [lines[0]] + lines[1..];
      assert !Short(lines[1..]);
      var k' := FirstLong(lines[1..]);
      k := k' + 1;
    }
  }
}
