/** Which records the two modes print, and that the tool understands its own output. */
module RecRoundTrip {
  import opened Wrappers
  import opened RecText
  import opened RecReader
  import opened RecMeaning
  import opened RecWriter
  import opened Platform
  import opened RecDump

  // ---------------------------------------------------------------- records of the full dump

  ghost predicate DumpedBy(archs: seq<string>, symbol: Symbol, c: nat, item: Item) {
    && c < |archs| == |symbol.combs| && symbol.combs[c].History? && item.Record?
    && item.name == symbol.name && item.arch == archs[c] && item.entry in symbol.combs[c].entries
  }

  lemma EntryRecords(name: string, arch: string, entries: seq<Entry>, item: Item)
    ensures item in EntryItems(name, arch, entries) <==>
            item.Record? && item.name == name && item.arch == arch && item.entry in entries
  {
    if item.Record? && item.name == name && item.arch == arch && item.entry in entries {
      var i :| 0 <= i < |entries| && entries[i] == item.entry;
      assert EntryItems(name, arch, entries)[i] == item;
    }
  }

  lemma {:induction false} SymbolRecords(archs: seq<string>, symbol: Symbol, n: nat, item: Item)
    requires n <= |archs| == |symbol.combs| && item.Record?
    ensures item in SymbolItems(archs, symbol, n) <==> exists c: nat :: c < n && DumpedBy(archs, symbol, c, item)
  {
    if n != 0 {
      SymbolRecords(archs, symbol, n - 1, item);
      if symbol.combs[n - 1].History? {
        EntryRecords(symbol.name, archs[n - 1], symbol.combs[n - 1].entries, item);
      }
      assert item in CombItems(symbol.name, archs[n - 1], symbol.combs[n - 1]) <==> DumpedBy(archs, symbol, n - 1, item);
    }
  }

  ghost predicate DumpedFrom(archs: seq<string>, symbol: Symbol, item: Item) {
    exists c: nat {:trigger DumpedBy(archs, symbol, c, item)} :: DumpedBy(archs, symbol, c, item)
  }

  /** The record is an entry of one of the symbols. */
  ghost predicate Dumped(archs: seq<string>, symbols: seq<Symbol>, item: Item) {
    exists k: nat {:trigger symbols[k]} :: k < |symbols| && DumpedFrom(archs, symbols[k], item)
  }

  lemma {:induction false} SymbolsRecords(archs: seq<string>, symbols: seq<Symbol>, item: Item)
    requires Shape(archs, symbols) && item.Record?
    ensures item in SymbolsItems(archs, symbols) <==> Dumped(archs, symbols, item)
  {
    if symbols != [] {
      var n := |symbols| - 1;
      SymbolsRecords(archs, symbols[..n], item);
      SymbolRecords(archs, symbols[n], |archs|, item);
      assert item in SymbolItems(archs, symbols[n], |archs|) <==> DumpedFrom(archs, symbols[n], item);
      DumpedAppend(archs, symbols, item);
    }
  }

  lemma DumpedAppend(archs: seq<string>, symbols: seq<Symbol>, item: Item)
    requires symbols != []
    ensures var n := |symbols| - 1;
      Dumped(archs, symbols, item) <==> Dumped(archs, symbols[..n], item) || DumpedFrom(archs, symbols[n], item)
  {
    var n := |symbols| - 1;
    assert forall k {:trigger symbols[k]} {:trigger symbols[..n][k]} :: 0 <= k < n ==> symbols[..n][k] == symbols[k];
  }

  // ---------------------------------------------------------------- records of a selection

  /** The record is the first entry with its footprint on some combination. */
  ghost predicate PickedAt(archs: seq<string>, combs: seq<Comb>, c: nat, arch: string, e: Entry) {
    && c < |archs| == |combs| && arch == archs[c] && combs[c].History?
    && var i := FirstWith(combs[c].entries, e.footprint); i < |combs[c].entries| && combs[c].entries[i] == e
  }

  ghost predicate Picked(archs: seq<string>, combs: seq<Comb>, arch: string, e: Entry) {
    exists c: nat {:trigger PickedAt(archs, combs, c, arch, e)} :: PickedAt(archs, combs, c, arch, e)
  }

  lemma {:induction false} FootprintRecords(archs: seq<string>, symbol: Symbol, f: nat, n: nat, item: Item)
    requires n <= |archs| == |symbol.combs|
    ensures item in FootprintItems(archs, symbol, f, n) <==>
      && item.Record? && item.name == symbol.name && item.entry.footprint == f
      && exists c: nat :: c < n && PickedAt(archs, symbol.combs, c, item.arch, item.entry)
  {
    if n != 0 {
      FootprintRecords(archs, symbol, f, n - 1, item);
      assert item in PickItems(symbol.name, archs[n - 1], symbol.combs[n - 1], f) <==>
        && item.Record? && item.name == symbol.name && item.entry.footprint == f
        && PickedAt(archs, symbol.combs, n - 1, item.arch, item.entry);
    }
  }

  lemma {:induction false} ListRecords(archs: seq<string>, symbol: Symbol, list: Footprints, item: Item)
    requires |archs| == |symbol.combs|
    ensures item in ListItems(archs, symbol, list) <==>
      && item.Record? && item.name == symbol.name && item.entry.footprint in Items(list)
      && Picked(archs, symbol.combs, item.arch, item.entry)
  {
    if list.Cons? {
      ListRecords(archs, symbol, list.next, item);
      FootprintRecords(archs, symbol, list.footprint, |archs|, item);
    }
  }

  lemma {:induction false} ModelsRecords(archs: seq<string>, db: string -> seq<Comb>, models: seq<Model>, item: Item)
    requires Database(archs, db)
    ensures item in ModelsItems(archs, db, models) <==>
      && item.Record? && Listed(models, item.name, item.entry.footprint)
      && Picked(archs, db(item.name), item.arch, item.entry)
  {
    if models != [] {
      var n := |models| - 1;
      var first, m := models[..n], models[n];
      ModelsRecords(archs, db, first, item);
      ListRecords(archs, Symbol(m.name, db(m.name)), m.footprints, item);
      if item.Record? {
        ListedAppend(models, item.name, item.entry.footprint);
      }
    }
  }

  lemma ListedAppend(models: seq<Model>, name: string, f: nat)
    requires models != []
    ensures var n := |models| - 1;
      Listed(models, name, f) <==>
      Listed(models[..n], name, f) || (models[n].name == name && f in Items(models[n].footprints))
  {
    var n := |models| - 1;
    if Listed(models[..n], name, f) {
      var i: nat :| ListedAt(models[..n], i, name, f);
      assert ListedAt(models, i, name, f);
    }
    if Listed(models, name, f) {
      var i: nat :| ListedAt(models, i, name, f);
      assert i < n ==> ListedAt(models[..n], i, name, f);
    }
    if models[n].name == name && f in Items(models[n].footprints) {
      assert ListedAt(models, n, name, f);
    }
  }

  lemma SelectionRecords(
    archs: seq<string>, db: string -> seq<Comb>, m: Machine, models: seq<Model>, item: Item)
    requires Database(archs, db)
    ensures item in Selection(archs, db, m, models) <==>
      if item.Plain? then item.line in PlatformLines(m) + TIMING_HEADER
      else Listed(models, item.name, item.entry.footprint) && Picked(archs, db(item.name), item.arch, item.entry)
  {
    ModelsRecords(archs, db, models, item);
    PlainMembers(PlatformLines(m), item);
    PlainMembers(TIMING_HEADER, item);
  }

  lemma PlainMembers(lines: seq<string>, item: Item)
    ensures item in PlainItems(lines) <==> item.Plain? && item.line in lines
  {
    if item.Plain? && item.line in lines {
      var i :| 0 <= i < |lines| && lines[i] == item.line;
      assert PlainItems(lines)[i] == item;
    }
  }

  // ---------------------------------------------------------------- well-formed output

  ghost predicate GoodCombs(combs: seq<Comb>) {
    forall c, e {:trigger e in combs[c].entries} ::
      0 <= c < |combs| && combs[c].History? && e in combs[c].entries ==> GoodEntry(e)
  }

  ghost predicate OneLineNames(archs: seq<string>, m: Machine) {
    && (forall arch {:trigger arch in archs} :: arch in archs ==> OneLine(arch))
    && OneLineTexts(m)
  }

  lemma HeaderIsGood()
    ensures forall l {:trigger l in TIMING_HEADER} :: l in TIMING_HEADER ==> GoodItem(Plain(l))
  {
    FieldIsNeutral("%rec", "timing");
  }

  lemma GoodByMembers(items: seq<Item>)
    requires forall item {:trigger item in items} :: item in items ==> GoodItem(item)
    ensures GoodItems(items)
  {
    forall i | 0 <= i < |items|
      ensures GoodItem(items[i])
    {
      assert items[i] in items;
    }
  }

  /** Every chunk has a newline at most at its end. */
  lemma {:induction false} ChunkShape(text: string, c: nat)
    requires c < |Chunks(text)|
    ensures var chunk := Chunks(text)[c]; forall i :: 0 <= i < |chunk| - 1 ==> chunk[i] != '\n'
    decreases |text|
  {
    var n := ChunkFrom(text, 0);
    if c > 0 {
      ChunkShape(text[n..], c - 1);
    }
  }

  lemma NameIsOneLine(line: string, chunk: string)
    requires IsModel(line) && line != "Model: " && line <= chunk && '\0' !in line
    requires forall i :: 0 <= i < |chunk| - 1 ==> chunk[i] != '\n'
    ensures OneLine(NameOf(line))
  {
    var name := NameOf(line);
    forall m | 0 <= m < |name|
      ensures name[m] != '\n' && name[m] != '\0'
    {
      var at := |"Model: "| + m;
      assert name[m] == line[at] && line[at] == chunk[at] && line[at] in line;
    }
  }

  /** A name that was read can be printed on one line again, and could be loaded. */
  lemma NamesRead(load: string -> bool, text: string, name: string, f: nat)
    requires ReadText(load, text).Ok? && Listed(ReadText(load, text).value.models, name, f)
    ensures OneLine(name) && load(name)
  {
    var lines := CStrings(Chunks(text));
    ReadFindsWhatIsWanted(load, lines);
    assert Wants(lines, name, f);
    var i := LineOfName(lines, name, f);
    ChunkShape(text, i);
    NameIsOneLine(lines[i], Chunks(text)[i]);
  }

  lemma LineOfName(lines: seq<string>, name: string, f: nat) returns (i: nat)
    requires Wants(lines, name, f)
    ensures i < |lines| && IsModel(lines[i]) && lines[i] != "Model: " && NameOf(lines[i]) == name
  {
    var j: nat :| WantsAt(lines, j, name, f);
    i :| NamedAt(lines, i, j, name);
    NamesOf(lines[i], name);
  }

  // ---------------------------------------------------------------- the round trips

  /** Some symbol of this name has an entry with this footprint. */
  ghost predicate Stored(symbols: seq<Symbol>, name: string, f: nat) {
    exists k, c, e {:trigger e in symbols[k].combs[c].entries} ::
      && 0 <= k < |symbols| && symbols[k].name == name && 0 <= c < |symbols[k].combs| && symbols[k].combs[c].History?
      && e in symbols[k].combs[c].entries && e.footprint == f
  }

  lemma DumpRecords(archs: seq<string>, symbols: seq<Symbol>, m: Machine, name: string, f: nat)
    requires Shape(archs, symbols)
    ensures HasRecord(DumpItems(archs, symbols, m), name, f) <==> Stored(symbols, name, f)
  {
    var items := DumpItems(archs, symbols, m);
    if HasRecord(items, name, f) {
      var i :| 0 <= i < |items| && items[i].Record? && items[i].name == name && items[i].entry.footprint == f;
      PlainMembers(PlatformLines(m), items[i]);
      PlainMembers(TIMING_HEADER, items[i]);
      assert items[i] in items;
      SymbolsRecords(archs, symbols, items[i]);
      var k: nat :| k < |symbols| && DumpedFrom(archs, symbols[k], items[i]);
      var c: nat :| DumpedBy(archs, symbols[k], c, items[i]);
      assert items[i].entry in symbols[k].combs[c].entries;
    }
    if Stored(symbols, name, f) {
      var k, c, e :|
        && 0 <= k < |symbols| && symbols[k].name == name && 0 <= c < |symbols[k].combs| && symbols[k].combs[c].History?
        && e in symbols[k].combs[c].entries && e.footprint == f;
      var item := Record(name, archs[c], e);
      assert DumpedBy(archs, symbols[k], c, item);
      SymbolsRecords(archs, symbols, item);
      assert item in items;
    }
  }

  lemma LoadableByRecords(load: string -> bool, items: seq<Item>)
    ensures Loadable(load, items) <==>
            forall name, f {:trigger HasRecord(items, name, f)} :: HasRecord(items, name, f) ==> load(name)
  {
    forall i | 0 <= i < |items| && items[i].Record?
      ensures HasRecord(items, items[i].name, items[i].entry.footprint)
    {
    }
  }

  lemma SymbolsThenRead(load: string -> bool, archs: seq<string>, symbols: seq<Symbol>, m: Machine)
    requires Shape(archs, symbols) && OneLineNames(archs, m)
    requires forall k {:trigger symbols[k]} :: 0 <= k < |symbols| ==>
      OneLine(symbols[k].name) && GoodCombs(symbols[k].combs)
    ensures var items := DumpItems(archs, symbols, m);
      var r := ReadText(load, Text(items));
      && (r.Ok? <==>
          && Short(DocLines(items))
          && forall name, f {:trigger Stored(symbols, name, f)} :: Stored(symbols, name, f) ==> load(name))
      && (r.Ok? ==> Tidy(r.value.models) && forall name, f {:trigger Listed(r.value.models, name, f)} ::
            Listed(r.value.models, name, f) <==> Stored(symbols, name, f))
  {
    var items := DumpItems(archs, symbols, m);
    DumpIsGood(archs, symbols, m);
    WriteThenRead(load, items);
    LoadableByRecords(load, items);
    forall name, f
      ensures HasRecord(items, name, f) <==> Stored(symbols, name, f)
    {
      DumpRecords(archs, symbols, m, name, f);
    }
  }

  lemma {:induction false} SymbolPlain(archs: seq<string>, symbol: Symbol, n: nat, item: Item)
    requires n <= |archs| == |symbol.combs| && item.Plain? && item in SymbolItems(archs, symbol, n)
    ensures item.line == "\n"
  {
    if n != 0 && item in SymbolItems(archs, symbol, n - 1) {
      SymbolPlain(archs, symbol, n - 1, item);
    }
  }

  lemma {:induction false} SymbolsPlain(archs: seq<string>, symbols: seq<Symbol>, item: Item)
    requires Shape(archs, symbols) && item.Plain? && item in SymbolsItems(archs, symbols)
    ensures item.line == "\n"
  {
    if symbols != [] {
      var n := |symbols| - 1;
      if item in SymbolsItems(archs, symbols[..n]) {
        SymbolsPlain(archs, symbols[..n], item);
      } else {
        SymbolPlain(archs, symbols[n], |archs|, item);
      }
    }
  }

  lemma DumpIsGood(archs: seq<string>, symbols: seq<Symbol>, m: Machine)
    requires Shape(archs, symbols) && OneLineNames(archs, m)
    requires forall k {:trigger symbols[k]} :: 0 <= k < |symbols| ==>
      OneLine(symbols[k].name) && GoodCombs(symbols[k].combs)
    ensures GoodItems(DumpItems(archs, symbols, m))
  {
    var body, items := SymbolsItems(archs, symbols), DumpItems(archs, symbols, m);
    HeaderIsGood();
    PlatformIsSilent(m);
    forall item | item in items
      ensures GoodItem(item)
    {
      PlainMembers(PlatformLines(m), item);
      PlainMembers(TIMING_HEADER, item);
      if item in body {
        if item.Record? {
          SymbolsRecords(archs, symbols, item);
          var k: nat :| k < |symbols| && DumpedFrom(archs, symbols[k], item);
          var c: nat :| DumpedBy(archs, symbols[k], c, item);
          assert archs[c] in archs && GoodCombs(symbols[k].combs);
        } else {
          SymbolsPlain(archs, symbols, item);
        }
      }
    }
    GoodByMembers(items);
  }

  lemma SelectionHasRecord(
    archs: seq<string>, db: string -> seq<Comb>, m: Machine, models: seq<Model>, name: string, f: nat)
    requires Database(archs, db)
    ensures HasRecord(Selection(archs, db, m, models), name, f) <==>
            Listed(models, name, f) && exists arch, e :: Picked(archs, db(name), arch, e) && e.footprint == f
  {
    var items := Selection(archs, db, m, models);
    if HasRecord(items, name, f) {
      var i :| 0 <= i < |items| && items[i].Record? && items[i].name == name && items[i].entry.footprint == f;
      SelectionRecords(archs, db, m, models, items[i]);
      assert Picked(archs, db(name), items[i].arch, items[i].entry);
    }
    if Listed(models, name, f) && exists arch, e :: Picked(archs, db(name), arch, e) && e.footprint == f {
      var arch, e :| Picked(archs, db(name), arch, e) && e.footprint == f;
      SelectionRecords(archs, db, m, models, Record(name, arch, e));
    }
  }

  lemma SelectionIsGood(
    load: string -> bool, archs: seq<string>, db: string -> seq<Comb>, m: Machine, text: string)
    requires Database(archs, db) && OneLineNames(archs, m)
    requires forall name {:trigger db(name)} :: GoodCombs(db(name))
    requires ReadText(load, text).Ok?
    ensures var items := Selection(archs, db, m, ReadText(load, text).value.models);
      GoodItems(items) && Loadable(load, items)
  {
    var models := ReadText(load, text).value.models;
    var items := Selection(archs, db, m, models);
    HeaderIsGood();
    PlatformIsSilent(m);
    forall item | item in items
      ensures GoodItem(item) && (item.Record? ==> load(item.name))
    {
      SelectionRecords(archs, db, m, models, item);
      if item.Record? {
        NamesRead(load, text, item.name, item.entry.footprint);
        var c: nat :| PickedAt(archs, db(item.name), c, item.arch, item.entry);
        assert archs[c] in archs && GoodCombs(db(item.name)) && item.entry in db(item.name)[c].entries;
      }
    }
    GoodByMembers(items);
    assert forall i {:trigger items[i]} :: 0 <= i < |items| ==> items[i] in items;
  }

  // ---------------------------------------------------------------- from directories

  ghost predicate HasEntry(combs: seq<Comb>, f: nat) {
    exists c, e {:trigger e in combs[c].entries} ::
      0 <= c < |combs| && combs[c].History? && e in combs[c].entries && e.footprint == f
  }

  /** The file is of the model of this name, which can be loaded and has an entry with this footprint. */
  ghost predicate Contributes(loaded: string -> Option<seq<Comb>>, file: string, name: string, f: nat) {
    && file != "." && file != ".." && IsStem(file, name)
    && loaded(name).Some? && HasEntry(loaded(name).value, f)
  }

  ghost predicate FoundIn(loaded: string -> Option<seq<Comb>>, files: seq<string>, name: string, f: nat) {
    exists file {:trigger file in files} :: file in files && Contributes(loaded, file, name, f)
  }

  /** Some file of some directory contributes this footprint of this model. */
  ghost predicate Found(loaded: string -> Option<seq<Comb>>, dirs: seq<Option<seq<string>>>, name: string, f: nat) {
    exists d {:trigger dirs[d]} :: 0 <= d < |dirs| && dirs[d].Some? && FoundIn(loaded, dirs[d].value, name, f)
  }

  ghost predicate StoredAt(symbols: seq<Symbol>, k: nat, name: string, f: nat) {
    k < |symbols| && symbols[k].name == name && HasEntry(symbols[k].combs, f)
  }

  lemma StoredSomewhere(symbols: seq<Symbol>, name: string, f: nat)
    ensures Stored(symbols, name, f) <==>
            exists k: nat {:trigger StoredAt(symbols, k, name, f)} :: StoredAt(symbols, k, name, f)
  {
    if Stored(symbols, name, f) {
      var k, c, e :|
        && 0 <= k < |symbols| && symbols[k].name == name && 0 <= c < |symbols[k].combs| && symbols[k].combs[c].History?
        && e in symbols[k].combs[c].entries && e.footprint == f;
      assert StoredAt(symbols, k, name, f);
    }
    if k: nat :| StoredAt(symbols, k, name, f) {
      var c, e :| 0 <= c < |symbols[k].combs| && symbols[k].combs[c].History?
        && e in symbols[k].combs[c].entries && e.footprint == f;
    }
  }

  lemma StoredAppend(a: seq<Symbol>, b: seq<Symbol>, name: string, f: nat)
    ensures Stored(a + b, name, f) <==> Stored(a, name, f) || Stored(b, name, f)
  {
    StoredSomewhere(a, name, f);
    StoredSomewhere(b, name, f);
    StoredSomewhere(a + b, name, f);
    if k: nat :| StoredAt(a, k, name, f) {
      assert StoredAt(a + b, k, name, f);
    }
    if k: nat :| StoredAt(b, k, name, f) {
      assert StoredAt(a + b, |a| + k, name, f);
    }
    if k: nat :| StoredAt(a + b, k, name, f) {
      assert if k < |a| then StoredAt(a, k, name, f) else StoredAt(b, k - |a|, name, f);
    }
  }

  lemma StoredFile(loaded: string -> Option<seq<Comb>>, file: string, name: string, f: nat)
    ensures Stored(FileSymbols(loaded, file), name, f) <==> Contributes(loaded, file, name, f)
  {
    StoredSomewhere(FileSymbols(loaded, file), name, f);
    if Contributes(loaded, file, name, f) {
      StemUnique(file, name, Stem(file));
      assert StoredAt(FileSymbols(loaded, file), 0, name, f);
    }
  }

  lemma {:induction false} StoredDirectory(loaded: string -> Option<seq<Comb>>, files: seq<string>, name: string, f: nat)
    ensures Stored(DirSymbols(loaded, files), name, f) <==> FoundIn(loaded, files, name, f)
  {
    if files != [] {
      var first, last := files[..|files| - 1], files[|files| - 1];
      StoredDirectory(loaded, first, name, f);
      StoredFile(loaded, last, name, f);
      StoredAppend(DirSymbols(loaded, first), FileSymbols(loaded, last), name, f);
      assert files == first + [last];
      assert forall file {:trigger file in files} {:trigger file in first} ::
        file in files <==> file in first || file == last;
      if Contributes(loaded, last, name, f) {
        assert last in files;
      }
    }
  }

  lemma {:induction false} StoredAll(
    loaded: string -> Option<seq<Comb>>, dirs: seq<Option<seq<string>>>, name: string, f: nat)
    ensures Stored(AllSymbols(loaded, dirs), name, f) <==> Found(loaded, dirs, name, f)
  {
    if dirs != [] {
      var first, last := dirs[..|dirs| - 1], dirs[|dirs| - 1];
      StoredAll(loaded, first, name, f);
      assert Found(loaded, dirs, name, f) <==>
        Found(loaded, first, name, f) || (last.Some? && FoundIn(loaded, last.value, name, f));
      if last.Some? {
        StoredDirectory(loaded, last.value, name, f);
        StoredAppend(AllSymbols(loaded, first), DirSymbols(loaded, last.value), name, f);
      } else {
        assert AllSymbols(loaded, dirs) == AllSymbols(loaded, first);
      }
    }
  }

  /** Files and entries whose texts are on one line each. */
  ghost predicate OneLineFiles(loaded: string -> Option<seq<Comb>>, dirs: seq<Option<seq<string>>>) {
    && (forall d, file {:trigger file in dirs[d].value} :: 0 <= d < |dirs| && dirs[d].Some? && file in dirs[d].value ==>
          OneLine(file))
    && (forall name {:trigger loaded(name)} :: loaded(name).Some? ==> GoodCombs(loaded(name).value))
  }

  ghost predicate GoodSymbols(symbols: seq<Symbol>) {
    forall k {:trigger symbols[k]} :: 0 <= k < |symbols| ==> OneLine(symbols[k].name) && GoodCombs(symbols[k].combs)
  }

  lemma {:induction false} GoodDirectory(loaded: string -> Option<seq<Comb>>, files: seq<string>)
    requires forall file {:trigger file in files} :: file in files ==> OneLine(file)
    requires forall name {:trigger loaded(name)} :: loaded(name).Some? ==> GoodCombs(loaded(name).value)
    ensures GoodSymbols(DirSymbols(loaded, files))
  {
    if files != [] {
      var first, last := files[..|files| - 1], files[|files| - 1];
      assert last in files && forall file {:trigger file in first} :: file in first ==> file in files;
      GoodDirectory(loaded, first);
      assert OneLine(Stem(last));
    }
  }

  lemma {:induction false} GoodAll(loaded: string -> Option<seq<Comb>>, dirs: seq<Option<seq<string>>>)
    requires OneLineFiles(loaded, dirs)
    ensures GoodSymbols(AllSymbols(loaded, dirs))
  {
    if dirs != [] {
      var first, last := dirs[..|dirs| - 1], dirs[|dirs| - 1];
      assert forall d {:trigger first[d]} :: 0 <= d < |first| ==> first[d] == dirs[d];
      GoodAll(loaded, first);
      if last.Some? {
        GoodDirectory(loaded, last.value);
      }
    }
  }

  /** Reading a full dump back: it is accepted exactly when no line is too long and every model with an entry can be
      loaded, and then the reader lists each model once, each footprint once, and exactly the models and footprints for
      which some file of some directory has an entry. */
  lemma DumpThenRead(
    load: string -> bool, archs: seq<string>, loaded: string -> Option<seq<Comb>>, dirs: seq<Option<seq<string>>>,
    m: Machine)
    requires Loads(archs, loaded) && OneLineNames(archs, m) && OneLineFiles(loaded, dirs)
    ensures Shape(archs, AllSymbols(loaded, dirs))
    ensures var items := DumpItems(archs, AllSymbols(loaded, dirs), m);
      var r := ReadText(load, Text(items));
      && (r.Ok? <==>
          && Short(DocLines(items))
          && forall name, f {:trigger Found(loaded, dirs, name, f)} :: Found(loaded, dirs, name, f) ==> load(name))
      && (r.Ok? ==> Tidy(r.value.models) && forall name, f {:trigger Listed(r.value.models, name, f)} ::
            Listed(r.value.models, name, f) <==> Found(loaded, dirs, name, f))
  {
    var symbols := AllSymbols(loaded, dirs);
    AllShape(archs, loaded, dirs);
    GoodAll(loaded, dirs);
    SymbolsThenRead(load, archs, symbols, m);
    forall name, f
      ensures Stored(symbols, name, f) <==> Found(loaded, dirs, name, f)
    {
      StoredAll(loaded, dirs, name, f);
    }
  }
}
