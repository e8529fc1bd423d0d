/** Reading rec files the way their format is meant: records are paragraphs of `key: value` lines. This is independent of
    starpu_perfmodel_recdump, which only looks at two of the keys. */
module RecFields {
  import opened RecText
  import opened RecWriter

  type Fields = seq<(string, string)>

  // ---------------------------------------------------------------- lines

  function Colon(line: string): (k: nat)
    ensures k <= |line| && (forall i {:trigger line[i]} :: 0 <= i < k ==> line[i] != ':')
    ensures k < |line| ==> line[k] == ':'
  {
    if line == "" || line[0] == ':' then 0 else 1 + Colon(line[1..])
  }

  /** The key is what stands before the first colon, the value what follows the colon and a space, without the newline. */
  function ReadField(line: string): (field: (string, string)) {
    var k := Colon(line);
    (line[..k], if k + 3 <= |line| then line[k + 2..|line| - 1] else "")
  }

  lemma FieldReadsBack(key: string, value: string)
    requires ':' !in key
    ensures ReadField(Field(key, value)) == (key, value) && Field(key, value) != "\n"
  {
    var line := Field(key, value);
    assert forall i {:trigger line[i]} :: 0 <= i < |key| ==> line[i] == key[i] && key[i] in key;
    assert line[|key|] == ':';
    assert Colon(line) == |key|;
    assert line[..|key|] == key && line[|key| + 2..|line| - 1] == value;
  }

  // ---------------------------------------------------------------- paragraphs

  function Ended(current: Fields): (records: seq<Fields>) {
    if current == [] then [] else [current]
  }

  /** The records of these lines, the first of which continue `current`. */
  function ReadRecords(lines: seq<string>, current: Fields): (records: seq<Fields>) {
    if lines == [] then Ended(current)
    else if lines[0] == "\n" then Ended(current) + ReadRecords(lines[1..], [])
    else ReadRecords(lines[1..], current + [ReadField(lines[0])])
  }

  function FieldLines(fields: Fields): (lines: seq<string>)
    ensures |lines| == |fields|
    ensures forall i {:trigger lines[i]} :: 0 <= i < |fields| ==> lines[i] == Field(fields[i].0, fields[i].1)
  {
    seq(|fields|, i requires 0 <= i < |fields| => Field(fields[i].0, fields[i].1))
  }

  function Paragraph(fields: Fields): (lines: seq<string>) {
    FieldLines(fields) + ["\n"]
  }

  function Paragraphs(records: seq<Fields>): (lines: seq<string>) {
    if records == [] then [] else Paragraph(records[0]) + Paragraphs(records[1..])
  }

  ghost predicate PlainKeys(fields: Fields) {
    fields != [] && forall i {:trigger fields[i]} :: 0 <= i < |fields| ==> ':' !in fields[i].0
  }

  lemma {:induction false} ReadParagraph(current: Fields, fields: Fields, rest: seq<string>)
    requires forall i {:trigger fields[i]} :: 0 <= i < |fields| ==> ':' !in fields[i].0
    requires current + fields != []
    ensures ReadRecords(Paragraph(fields) + rest, current) == [current + fields] + ReadRecords(rest, [])
    decreases |fields|
  {
    var lines := Paragraph(fields) + rest;
    if fields == [] {
      assert lines[0] == "\n" && lines[1..] == rest && current + fields == current;
    } else {
      var field, more := fields[0], fields[1..];
      FieldReadsBack(field.0, field.1);
      assert lines[0] == Field(field.0, field.1) && lines[1..] == Paragraph(more) + rest;
      assert (current + [field]) + more == current + fields;
      ReadParagraph(current + [field], more, rest);
    }
  }

  /** What is written as paragraphs is read back as records. */
  lemma {:induction false} ParagraphsReadBack(records: seq<Fields>)
    requires forall i {:trigger records[i]} :: 0 <= i < |records| ==> PlainKeys(records[i])
    ensures ReadRecords(Paragraphs(records), []) == records
  {
    if records != [] {
      assert PlainKeys(records[0]) && [] + records[0] == records[0];
      ReadParagraph([], records[0], Paragraphs(records[1..]));
      ParagraphsReadBack(records[1..]);
    }
  }

  lemma {:induction false} ParagraphsAppend(a: seq<Fields>, b: seq<Fields>)
    ensures Paragraphs(a + b) == Paragraphs(a) + Paragraphs(b)
    decreases |a|
  {
    if a == [] {
      assert a + b == b;
    } else {
      assert (a + b)[0] == a[0] && (a + b)[1..] == a[1..] + b;
      ParagraphsAppend(a[1..], b);
    }
  }

  lemma OneParagraph(fields: Fields)
    ensures Paragraphs([fields]) == Paragraph(fields)
  {
    assert [fields][1..] == [];
  }

  // ---------------------------------------------------------------- records of entries

  function KeyFields(name: string, arch: string, e: Entry): (fields: Fields) {
    [("Model", name), ("Architecture", arch), ("Footprint", ToHex(e.footprint, 8))]
  }

  function DetailFields(e: Entry): (fields: Fields) {
    [("Size", e.size)] + (if e.flops.Some? then [("Flops", e.flops.value)] else [])
    + [("Mean", e.mean), ("Stddev", e.deviation), ("Samples", e.samples)]
  }

  function EntryFields(name: string, arch: string, e: Entry): (fields: Fields) {
    KeyFields(name, arch, e) + DetailFields(e)
  }

  lemma DetailsAreFields(e: Entry)
    ensures DetailLines(e) == FieldLines(DetailFields(e)) && PlainKeys(DetailFields(e))
  {
    assert e.flops.Some? ==> DetailFields(e)[1] == ("Flops", e.flops.value);
  }

  lemma KeyIsFields(name: string, arch: string, e: Entry)
    ensures KeyLines(name, arch, e.footprint) == FieldLines(KeyFields(name, arch, e)) && PlainKeys(KeyFields(name, arch, e))
  {
  }

  lemma PlainKeysAppend(a: Fields, b: Fields)
    requires PlainKeys(a) && PlainKeys(b)
    ensures PlainKeys(a + b) && FieldLines(a + b) == FieldLines(a) + FieldLines(b)
  {
  }

  /** A printed record has each value after its own key. */
  lemma RecordReadsBack(name: string, arch: string, e: Entry)
    ensures ReadRecords(ItemLines(Record(name, arch, e)), []) == [EntryFields(name, arch, e)]
    ensures e.footprint < UINT32 ==> StrToUL(ToHex(e.footprint, 8) + "\n") == e.footprint
  {
    var key, details := KeyFields(name, arch, e), DetailFields(e);
    KeyIsFields(name, arch, e);
    DetailsAreFields(e);
    PlainKeysAppend(key, details);
    OneParagraph(key + details);
    ParagraphsReadBack([key + details]);
    if e.footprint < UINT32 {
      FootprintRoundTrip(e.footprint);
    }
  }

  /** So the lines of a record determine its entry. */
  lemma LinesDetermineRecord(name: string, arch: string, e: Entry, name': string, arch': string, e': Entry)
    requires e.footprint < UINT32 && e'.footprint < UINT32
    requires ItemLines(Record(name, arch, e)) == ItemLines(Record(name', arch', e'))
    ensures name == name' && arch == arch' && e == e'
  {
    RecordReadsBack(name, arch, e);
    RecordReadsBack(name', arch', e');
    var f, f' := EntryFields(name, arch, e), EntryFields(name', arch', e');
    assert f[0] == f'[0] && f[1] == f'[1] && f[2] == f'[2] && f[3] == f'[3];
    assert |f| == |f'| && f[|f| - 3] == f'[|f| - 3] && f[|f| - 2] == f'[|f| - 2] && f[|f| - 1] == f'[|f| - 1];
    assert e.flops.Some? ==> f[4] == f'[4];
  }

  // ---------------------------------------------------------------- numbers

  /** One more character: a digit goes on with the last number, anything else starts the next one. */
  function WithChar(ns: seq<nat>, c: char): (ns': seq<nat>)
    ensures ns' != []
  {
    if c < '0' || '9' < c then ns + [0]
    else
      var digit := (c - '0') as nat;
      if ns == [] then [digit] else ns[..|ns| - 1] + [10 * ns[|ns| - 1] + digit]
  }

  /** Decimal numbers separated by single spaces. */
  function Numbers(s: string): (ns: seq<nat>) {
    if s == "" then [] else WithChar(Numbers(s[..|s| - 1]), s[|s| - 1])
  }

  lemma NumbersNext(s: string, c: char)
    ensures Numbers(s + [c]) == WithChar(Numbers(s), c)
  {
    assert (s + [c])[..|s|] == s;
  }
}
