/** What the two modes print, place by place: which item stands for which entry of which file, each once and in the order of
    the loops. */
module RecOrder {
  import opened Wrappers
  import opened Lexicographic
  import opened RecReader
  import opened RecWriter
  import opened Platform
  import opened RecDump

  type Table = seq<Placed<Item>>

  const TIMING: seq<Item> := [Plain("%rec: timing\n"), Plain("\n")]

  lemma HeaderText()
    ensures PlainItems(TIMING_HEADER) == TIMING
  {
    assert Field("%rec", "timing") == "%rec: timing\n";
  }

  // ---------------------------------------------------------------- one model

  /** What is printed for a combination: an empty line, or a record for each entry. */
  ghost predicate CombAt(name: string, arch: string, comb: Comb, at: Label, item: Item) {
    match comb
    case NoImplementation => at == [] && item == Plain("\n")
    case History(entries) => |at| == 1 && at[0] < |entries| && item == Record(name, arch, entries[at[0]])
  }

  function CombTable(name: string, arch: string, comb: Comb): (table: Table) {
    match comb
    case NoImplementation => [Placed([], Plain("\n"))]
    case History(entries) =>
      seq(|entries|, i requires 0 <= i < |entries| => Placed([i], Record(name, arch, entries[i])))
  }

  lemma CombPlaces(name: string, arch: string, comb: Comb)
    ensures Sorted(CombTable(name, arch, comb))
    ensures Contents(CombTable(name, arch, comb)) == CombItems(name, arch, comb)
    ensures forall at, item {:trigger Placed(at, item) in CombTable(name, arch, comb)} ::
      Placed(at, item) in CombTable(name, arch, comb) <==> CombAt(name, arch, comb, at, item)
  {
    var table := CombTable(name, arch, comb);
    forall at, item | CombAt(name, arch, comb, at, item)
      ensures Placed(at, item) in table
    {
      if comb.History? {
        assert table[at[0]] == Placed([at[0]], item) && [at[0]] == at;
      }
    }
  }

  function SymbolTables(archs: seq<string>, symbol: Symbol, n: nat): (tables: seq<Table>)
    requires n <= |archs| == |symbol.combs|
    ensures |tables| == n
    ensures forall c {:trigger tables[c]} :: 0 <= c < n ==> tables[c] == CombTable(symbol.name, archs[c], symbol.combs[c])
  {
    seq(n, c requires 0 <= c < n => CombTable(symbol.name, archs[c], symbol.combs[c]))
  }

  lemma {:induction false} SymbolContents(archs: seq<string>, symbol: Symbol, n: nat)
    requires n <= |archs| == |symbol.combs|
    ensures Contents(Chapters(SymbolTables(archs, symbol, n))) == SymbolItems(archs, symbol, n)
  {
    if n != 0 {
      SymbolContents(archs, symbol, n - 1);
      var tables, last := SymbolTables(archs, symbol, n - 1), CombTable(symbol.name, archs[n - 1], symbol.combs[n - 1]);
      assert SymbolTables(archs, symbol, n) == tables + [last];
      NextChapter(tables, last);
      CombPlaces(symbol.name, archs[n - 1], symbol.combs[n - 1]);
    }
  }

  /** What is printed for a model: at combination c, what the combination gives. */
  ghost predicate SymbolAt(archs: seq<string>, name: string, combs: seq<Comb>, at: Label, item: Item) {
    at != [] && at[0] < |archs| == |combs| && CombAt(name, archs[at[0]], combs[at[0]], at[1..], item)
  }

  lemma SymbolPlaces(archs: seq<string>, symbol: Symbol)
    requires |archs| == |symbol.combs|
    ensures var table := Chapters(SymbolTables(archs, symbol, |archs|));
      && Sorted(table)
      && forall at, item {:trigger Placed(at, item) in table} ::
           Placed(at, item) in table <==> SymbolAt(archs, symbol.name, symbol.combs, at, item)
  {
    var tables := SymbolTables(archs, symbol, |archs|);
    forall c: nat | c < |archs|
      ensures Sorted(tables[c])
      ensures forall at, item {:trigger Placed(at, item) in tables[c]} ::
        Placed(at, item) in tables[c] <==> CombAt(symbol.name, archs[c], symbol.combs[c], at, item)
    {
      CombPlaces(symbol.name, archs[c], symbol.combs[c]);
    }
    ChaptersSorted(tables);
    forall at, item
      ensures Placed(at, item) in Chapters(tables) <==> SymbolAt(archs, symbol.name, symbol.combs, at, item)
    {
      ChaptersMembers(tables, at, item);
    }
  }

  // ---------------------------------------------------------------- the full dump

  /** What is printed for a file: all of its model, if that can be loaded. */
  ghost predicate FileAt(
    archs: seq<string>, loaded: string -> Option<seq<Comb>>, file: string, at: Label, item: Item)
  {
    file != "." && file != ".." && exists name {:trigger loaded(name)} ::
      IsStem(file, name) && loaded(name).Some? && SymbolAt(archs, name, loaded(name).value, at, item)
  }

  function FileTable(archs: seq<string>, loaded: string -> Option<seq<Comb>>, file: string): (table: Table) {
    if file == "." || file == ".." || loaded(Stem(file)).None? || |loaded(Stem(file)).value| != |archs| then []
    else Chapters(SymbolTables(archs, Symbol(Stem(file), loaded(Stem(file)).value), |archs|))
  }

  lemma FilePlaces(archs: seq<string>, loaded: string -> Option<seq<Comb>>, file: string)
    requires Loads(archs, loaded)
    ensures Sorted(FileTable(archs, loaded, file))
    ensures forall at, item {:trigger Placed(at, item) in FileTable(archs, loaded, file)} ::
      Placed(at, item) in FileTable(archs, loaded, file) <==> FileAt(archs, loaded, file, at, item)
    ensures Shape(archs, FileSymbols(loaded, file))
    ensures Contents(FileTable(archs, loaded, file)) == SymbolsItems(archs, FileSymbols(loaded, file))
  {
    var name := Stem(file);
    forall name' | IsStem(file, name')
      ensures name' == name
    {
      StemUnique(file, name', name);
    }
    if file != "." && file != ".." && loaded(name).Some? {
      var symbol := Symbol(name, loaded(name).value);
      SymbolPlaces(archs, symbol);
      SymbolContents(archs, symbol, |archs|);
      assert [symbol][..0] == [];
    }
  }

  lemma ShapeAppend(archs: seq<string>, a: seq<Symbol>, b: seq<Symbol>)
    ensures Shape(archs, a) && Shape(archs, b) <==> Shape(archs, a + b)
  {
    assert forall i {:trigger a[i]} :: 0 <= i < |a| ==> (a + b)[i] == a[i];
    assert forall i {:trigger b[i]} :: 0 <= i < |b| ==> (a + b)[|a| + i] == b[i];
  }

  lemma {:induction false} SymbolsAppend(archs: seq<string>, a: seq<Symbol>, b: seq<Symbol>)
    requires Shape(archs, a) && Shape(archs, b)
    ensures Shape(archs, a + b) && SymbolsItems(archs, a + b) == SymbolsItems(archs, a) + SymbolsItems(archs, b)
    decreases |b|
  {
    ShapeAppend(archs, a, b);
    if b == [] {
      assert a + b == a;
    } else {
      var first, last := b[..|b| - 1], b[|b| - 1];
      assert b == first + [last] && a + b == (a + first) + [last];
      ShapeAppend(archs, first, [last]);
      SymbolsAppend(archs, a, first);
      AppendOne(archs, a, first, a + first, last);
    }
  }

  lemma AppendOne(archs: seq<string>, a: seq<Symbol>, b: seq<Symbol>, all: seq<Symbol>, symbol: Symbol)
    requires Shape(archs, a) && Shape(archs, b) && Shape(archs, all) && |symbol.combs| == |archs|
    requires SymbolsItems(archs, all) == SymbolsItems(archs, a) + SymbolsItems(archs, b)
    ensures Shape(archs, b + [symbol]) && Shape(archs, all + [symbol])
    ensures SymbolsItems(archs, all + [symbol]) == SymbolsItems(archs, a) + SymbolsItems(archs, b + [symbol])
  {
    OneMoreSymbol(archs, all, symbol);
    OneMoreSymbol(archs, b, symbol);
    Associative(SymbolsItems(archs, a), SymbolsItems(archs, b), SymbolItems(archs, symbol, |archs|));
  }

  lemma Associative<T>(a: seq<T>, b: seq<T>, c: seq<T>)
    ensures (a + b) + c == a + (b + c)
  {
  }

  function DirTables(archs: seq<string>, loaded: string -> Option<seq<Comb>>, files: seq<string>): (tables: seq<Table>)
    ensures |tables| == |files|
    ensures forall f {:trigger tables[f]} :: 0 <= f < |files| ==> tables[f] == FileTable(archs, loaded, files[f])
  {
    seq(|files|, f requires 0 <= f < |files| => FileTable(archs, loaded, files[f]))
  }

  lemma NextFileTable(archs: seq<string>, loaded: string -> Option<seq<Comb>>, files: seq<string>, file: string)
    ensures Contents(Chapters(DirTables(archs, loaded, files + [file])))
         == Contents(Chapters(DirTables(archs, loaded, files))) + Contents(FileTable(archs, loaded, file))
    ensures DirSymbols(loaded, files + [file]) == DirSymbols(loaded, files) + FileSymbols(loaded, file)
  {
    assert DirTables(archs, loaded, files + [file]) == DirTables(archs, loaded, files) + [FileTable(archs, loaded, file)];
    NextChapter(DirTables(archs, loaded, files), FileTable(archs, loaded, file));
    assert (files + [file])[..|files|] == files;
  }

  lemma {:induction false} DirContents(archs: seq<string>, loaded: string -> Option<seq<Comb>>, files: seq<string>)
    requires Loads(archs, loaded)
    ensures Shape(archs, DirSymbols(loaded, files))
    ensures Contents(Chapters(DirTables(archs, loaded, files))) == SymbolsItems(archs, DirSymbols(loaded, files))
  {
    if files != [] {
      var first, last := files[..|files| - 1], files[|files| - 1];
      assert files == first + [last];
      DirContents(archs, loaded, first);
      FilePlaces(archs, loaded, last);
      NextFileTable(archs, loaded, first, last);
      SymbolsAppend(archs, DirSymbols(loaded, first), FileSymbols(loaded, last));
    }
  }

  ghost predicate DirAt(
    archs: seq<string>, loaded: string -> Option<seq<Comb>>, files: seq<string>, at: Label, item: Item)
  {
    at != [] && at[0] < |files| && FileAt(archs, loaded, files[at[0]], at[1..], item)
  }

  lemma DirPlaces(archs: seq<string>, loaded: string -> Option<seq<Comb>>, files: seq<string>)
    requires Loads(archs, loaded)
    ensures var table := Chapters(DirTables(archs, loaded, files));
      && Sorted(table)
      && forall at, item {:trigger Placed(at, item) in table} ::
           Placed(at, item) in table <==> DirAt(archs, loaded, files, at, item)
  {
    var tables := DirTables(archs, loaded, files);
    forall f: nat | f < |files|
      ensures Sorted(tables[f])
      ensures forall at, item {:trigger Placed(at, item) in tables[f]} ::
        Placed(at, item) in tables[f] <==> FileAt(archs, loaded, files[f], at, item)
    {
      FilePlaces(archs, loaded, files[f]);
    }
    ChaptersSorted(tables);
    forall at, item
      ensures Placed(at, item) in Chapters(tables) <==> DirAt(archs, loaded, files, at, item)
    {
      ChaptersMembers(tables, at, item);
    }
  }

  /** A directory that cannot be opened gives nothing. */
  function DirTable(archs: seq<string>, loaded: string -> Option<seq<Comb>>, dir: Option<seq<string>>): (table: Table) {
    if dir.Some? then Chapters(DirTables(archs, loaded, dir.value)) else []
  }

  function AllTables(archs: seq<string>, loaded: string -> Option<seq<Comb>>, dirs: seq<Option<seq<string>>>)
    : (tables: seq<Table>)
    ensures |tables| == |dirs|
    ensures forall d {:trigger tables[d]} :: 0 <= d < |dirs| ==> tables[d] == DirTable(archs, loaded, dirs[d])
  {
    seq(|dirs|, d requires 0 <= d < |dirs| => DirTable(archs, loaded, dirs[d]))
  }

  lemma NextDirTable(
    archs: seq<string>, loaded: string -> Option<seq<Comb>>, dirs: seq<Option<seq<string>>>, dir: Option<seq<string>>)
    ensures Contents(Chapters(AllTables(archs, loaded, dirs + [dir])))
         == Contents(Chapters(AllTables(archs, loaded, dirs))) + Contents(DirTable(archs, loaded, dir))
    ensures AllSymbols(loaded, dirs + [dir])
         == AllSymbols(loaded, dirs) + (if dir.Some? then DirSymbols(loaded, dir.value) else [])
  {
    assert AllTables(archs, loaded, dirs + [dir]) == AllTables(archs, loaded, dirs) + [DirTable(archs, loaded, dir)];
    NextChapter(AllTables(archs, loaded, dirs), DirTable(archs, loaded, dir));
    assert (dirs + [dir])[..|dirs|] == dirs;
  }

  lemma {:induction false} AllContents(
    archs: seq<string>, loaded: string -> Option<seq<Comb>>, dirs: seq<Option<seq<string>>>)
    requires Loads(archs, loaded)
    ensures Shape(archs, AllSymbols(loaded, dirs))
    ensures Contents(Chapters(AllTables(archs, loaded, dirs))) == SymbolsItems(archs, AllSymbols(loaded, dirs))
  {
    if dirs != [] {
      var first, last := dirs[..|dirs| - 1], dirs[|dirs| - 1];
      assert dirs == first + [last];
      AllContents(archs, loaded, first);
      NextDirTable(archs, loaded, first, last);
      var more: seq<Symbol> := if last.Some? then DirSymbols(loaded, last.value) else [];
      if last.Some? {
        DirContents(archs, loaded, last.value);
      }
      SymbolsAppend(archs, AllSymbols(loaded, first), more);
    }
  }

  /** The item that the full dump prints for directory at[0], file at[1], combination at[2] and entry at[3]. */
  ghost predicate DumpAt(
    archs: seq<string>, loaded: string -> Option<seq<Comb>>, dirs: seq<Option<seq<string>>>, at: Label, item: Item)
  {
    at != [] && at[0] < |dirs| && dirs[at[0]].Some? && DirAt(archs, loaded, dirs[at[0]].value, at[1..], item)
  }

  /** The full dump is the header, then every entry of every model of every file of every directory, each once and in
      this order, with an empty line for a combination without implementation, and then the platform. */
  lemma DumpInOrder(
    archs: seq<string>, loaded: string -> Option<seq<Comb>>, dirs: seq<Option<seq<string>>>, m: Machine)
    returns (table: Table)
    requires Loads(archs, loaded)
    ensures Shape(archs, AllSymbols(loaded, dirs))
    ensures DumpItems(archs, AllSymbols(loaded, dirs), m) == TIMING + Contents(table) + PlainItems(PlatformLines(m))
    ensures Sorted(table)
    ensures forall at, item {:trigger Placed(at, item) in table} ::
      Placed(at, item) in table <==> DumpAt(archs, loaded, dirs, at, item)
  {
    HeaderText();
    AllContents(archs, loaded, dirs);
    var tables := AllTables(archs, loaded, dirs);
    table := Chapters(tables);
    forall d: nat | d < |dirs|
      ensures Sorted(tables[d])
      ensures dirs[d].Some? ==> forall at, item {:trigger Placed(at, item) in tables[d]} ::
        Placed(at, item) in tables[d] <==> DirAt(archs, loaded, dirs[d].value, at, item)
    {
      if dirs[d].Some? {
        DirPlaces(archs, loaded, dirs[d].value);
      }
    }
    ChaptersSorted(tables);
    forall at, item
      ensures Placed(at, item) in table <==> DumpAt(archs, loaded, dirs, at, item)
    {
      ChaptersMembers(tables, at, item);
    }
  }

  // ---------------------------------------------------------------- a selection

  /** Entry i is the first with this footprint. */
  ghost predicate FirstAt(entries: seq<Entry>, f: nat, i: nat) {
    && i < |entries| && entries[i].footprint == f
    && forall j {:trigger entries[j]} :: 0 <= j < i ==> entries[j].footprint != f
  }

  /** What is printed for one footprint on one combination: its first entry, if any. */
  ghost predicate PickAt(name: string, arch: string, comb: Comb, f: nat, at: Label, item: Item) {
    && at == [] && comb.History?
    && exists i: nat {:trigger FirstAt(comb.entries, f, i)} ::
         FirstAt(comb.entries, f, i) && item == Record(name, arch, comb.entries[i])
  }

  function PickTable(name: string, arch: string, comb: Comb, f: nat): (table: Table) {
    var items := PickItems(name, arch, comb, f);
    if items == [] then [] else [Placed([], items[0])]
  }

  lemma PickPlaces(name: string, arch: string, comb: Comb, f: nat)
    ensures Sorted(PickTable(name, arch, comb, f))
    ensures Contents(PickTable(name, arch, comb, f)) == PickItems(name, arch, comb, f)
    ensures forall at, item {:trigger Placed(at, item) in PickTable(name, arch, comb, f)} ::
      Placed(at, item) in PickTable(name, arch, comb, f) <==> PickAt(name, arch, comb, f, at, item)
  {
    if comb.History? {
      var i := FirstWith(comb.entries, f);
      assert i < |comb.entries| ==> FirstAt(comb.entries, f, i);
    }
  }

  function FootprintTables(archs: seq<string>, symbol: Symbol, f: nat, n: nat): (tables: seq<Table>)
    requires n <= |archs| == |symbol.combs|
    ensures |tables| == n
    ensures forall c {:trigger tables[c]} :: 0 <= c < n ==>
      tables[c] == PickTable(symbol.name, archs[c], symbol.combs[c], f)
  {
    seq(n, c requires 0 <= c < n => PickTable(symbol.name, archs[c], symbol.combs[c], f))
  }

  lemma {:induction false} FootprintContents(archs: seq<string>, symbol: Symbol, f: nat, n: nat)
    requires n <= |archs| == |symbol.combs|
    ensures Contents(Chapters(FootprintTables(archs, symbol, f, n))) == FootprintItems(archs, symbol, f, n)
  {
    if n != 0 {
      FootprintContents(archs, symbol, f, n - 1);
      var tables, last :=
        FootprintTables(archs, symbol, f, n - 1), PickTable(symbol.name, archs[n - 1], symbol.combs[n - 1], f);
      assert FootprintTables(archs, symbol, f, n) == tables + [last];
      NextChapter(tables, last);
      PickPlaces(symbol.name, archs[n - 1], symbol.combs[n - 1], f);
    }
  }

  ghost predicate FootprintAt(archs: seq<string>, symbol: Symbol, f: nat, at: Label, item: Item) {
    && at != [] && at[0] < |archs| == |symbol.combs|
    && PickAt(symbol.name, archs[at[0]], symbol.combs[at[0]], f, at[1..], item)
  }

  lemma FootprintPlaces(archs: seq<string>, symbol: Symbol, f: nat)
    requires |archs| == |symbol.combs|
    ensures var table := Chapters(FootprintTables(archs, symbol, f, |archs|));
      && Sorted(table)
      && forall at, item {:trigger Placed(at, item) in table} ::
           Placed(at, item) in table <==> FootprintAt(archs, symbol, f, at, item)
  {
    var tables := FootprintTables(archs, symbol, f, |archs|);
    forall c: nat | c < |archs|
      ensures Sorted(tables[c])
      ensures forall at, item {:trigger Placed(at, item) in tables[c]} ::
        Placed(at, item) in tables[c] <==> PickAt(symbol.name, archs[c], symbol.combs[c], f, at, item)
    {
      PickPlaces(symbol.name, archs[c], symbol.combs[c], f);
    }
    ChaptersSorted(tables);
    forall at, item
      ensures Placed(at, item) in Chapters(tables) <==> FootprintAt(archs, symbol, f, at, item)
    {
      ChaptersMembers(tables, at, item);
    }
  }

  function ListTables(archs: seq<string>, symbol: Symbol, fs: seq<nat>): (tables: seq<Table>)
    requires |archs| == |symbol.combs|
    ensures |tables| == |fs|
    ensures forall l {:trigger tables[l]} :: 0 <= l < |fs| ==>
      tables[l] == Chapters(FootprintTables(archs, symbol, fs[l], |archs|))
  {
    seq(|fs|, l requires 0 <= l < |fs| => Chapters(FootprintTables(archs, symbol, fs[l], |archs|)))
  }

  function FlatItems(archs: seq<string>, symbol: Symbol, fs: seq<nat>): (items: seq<Item>)
    requires |archs| == |symbol.combs|
  {
    if fs == [] then []
    else FlatItems(archs, symbol, fs[..|fs| - 1]) + FootprintItems(archs, symbol, fs[|fs| - 1], |archs|)
  }

  lemma {:induction false} FlatFront(archs: seq<string>, symbol: Symbol, f: nat, fs: seq<nat>)
    requires |archs| == |symbol.combs|
    ensures FlatItems(archs, symbol, [f] + fs) == FootprintItems(archs, symbol, f, |archs|) + FlatItems(archs, symbol, fs)
    decreases |fs|
  {
    if fs == [] {
      assert ([f] + fs)[..0] == [] && ([f] + fs)[0] == f;
    } else {
      assert ([f] + fs)[..|fs|] == [f] + fs[..|fs| - 1];
      FlatFront(archs, symbol, f, fs[..|fs| - 1]);
    }
  }

  lemma {:induction false} ListIsFlat(archs: seq<string>, symbol: Symbol, list: Footprints)
    requires |archs| == |symbol.combs|
    ensures ListItems(archs, symbol, list) == FlatItems(archs, symbol, Items(list))
  {
    if list.Cons? {
      ListIsFlat(archs, symbol, list.next);
      FlatFront(archs, symbol, list.footprint, Items(list.next));
    }
  }

  lemma {:induction false} ListContents(archs: seq<string>, symbol: Symbol, fs: seq<nat>)
    requires |archs| == |symbol.combs|
    ensures Contents(Chapters(ListTables(archs, symbol, fs))) == FlatItems(archs, symbol, fs)
  {
    if fs != [] {
      var first, f := fs[..|fs| - 1], fs[|fs| - 1];
      ListContents(archs, symbol, first);
      var last := Chapters(FootprintTables(archs, symbol, f, |archs|));
      assert ListTables(archs, symbol, fs) == ListTables(archs, symbol, first) + [last];
      NextChapter(ListTables(archs, symbol, first), last);
      FootprintContents(archs, symbol, f, |archs|);
    }
  }

  ghost predicate ListAt(archs: seq<string>, symbol: Symbol, fs: seq<nat>, at: Label, item: Item) {
    at != [] && at[0] < |fs| && FootprintAt(archs, symbol, fs[at[0]], at[1..], item)
  }

  lemma ListPlaces(archs: seq<string>, symbol: Symbol, fs: seq<nat>)
    requires |archs| == |symbol.combs|
    ensures var table := Chapters(ListTables(archs, symbol, fs));
      && Sorted(table)
      && forall at, item {:trigger Placed(at, item) in table} ::
           Placed(at, item) in table <==> ListAt(archs, symbol, fs, at, item)
  {
    var tables := ListTables(archs, symbol, fs);
    forall l: nat | l < |fs|
      ensures Sorted(tables[l])
      ensures forall at, item {:trigger Placed(at, item) in tables[l]} ::
        Placed(at, item) in tables[l] <==> FootprintAt(archs, symbol, fs[l], at, item)
    {
      FootprintPlaces(archs, symbol, fs[l]);
    }
    ChaptersSorted(tables);
    forall at, item
      ensures Placed(at, item) in Chapters(tables) <==> ListAt(archs, symbol, fs, at, item)
    {
      ChaptersMembers(tables, at, item);
    }
  }

  function ModelTables(archs: seq<string>, db: string -> seq<Comb>, models: seq<Model>): (tables: seq<Table>)
    requires Database(archs, db)
    ensures |tables| == |models|
    ensures forall k {:trigger tables[k]} :: 0 <= k < |models| ==>
      tables[k] == Chapters(ListTables(archs, Symbol(models[k].name, db(models[k].name)), Items(models[k].footprints)))
  {
    seq(|models|, k requires 0 <= k < |models| =>
      Chapters(ListTables(archs, Symbol(models[k].name, db(models[k].name)), Items(models[k].footprints))))
  }

  lemma {:induction false} ModelContents(archs: seq<string>, db: string -> seq<Comb>, models: seq<Model>)
    requires Database(archs, db)
    ensures Contents(Chapters(ModelTables(archs, db, models))) == ModelsItems(archs, db, models)
  {
    if models != [] {
      var first, model := models[..|models| - 1], models[|models| - 1];
      ModelContents(archs, db, first);
      var symbol := Symbol(model.name, db(model.name));
      var last := Chapters(ListTables(archs, symbol, Items(model.footprints)));
      assert ModelTables(archs, db, models) == ModelTables(archs, db, first) + [last];
      NextChapter(ModelTables(archs, db, first), last);
      ListContents(archs, symbol, Items(model.footprints));
      ListIsFlat(archs, symbol, model.footprints);
    }
  }

  /** The item that a selection prints for model at[0], its footprint at[1] and combination at[2]. */
  ghost predicate SelectionAt(
    archs: seq<string>, db: string -> seq<Comb>, models: seq<Model>, at: Label, item: Item)
  {
    && at != [] && at[0] < |models|
    && ListAt(archs, Symbol(models[at[0]].name, db(models[at[0]].name)), Items(models[at[0]].footprints), at[1..], item)
  }

  /** A selection is the platform, the header, and then for each model, each of its footprints and each combination, in
      this order, the first entry with that footprint, if there is one. */
  lemma SelectionInOrder(archs: seq<string>, db: string -> seq<Comb>, m: Machine, models: seq<Model>)
    returns (table: Table)
    requires Database(archs, db)
    ensures Selection(archs, db, m, models) == PlainItems(PlatformLines(m)) + TIMING + Contents(table)
    ensures Sorted(table)
    ensures forall at, item {:trigger Placed(at, item) in table} ::
      Placed(at, item) in table <==> SelectionAt(archs, db, models, at, item)
  {
    HeaderText();
    ModelContents(archs, db, models);
    var tables := ModelTables(archs, db, models);
    table := Chapters(tables);
    forall k: nat | k < |models|
      ensures Sorted(tables[k])
      ensures forall at, item {:trigger Placed(at, item) in tables[k]} :: Placed(at, item) in tables[k] <==>
        ListAt(archs, Symbol(models[k].name, db(models[k].name)), Items(models[k].footprints), at, item)
    {
      ListPlaces(archs, Symbol(models[k].name, db(models[k].name)), Items(models[k].footprints));
    }
    ChaptersSorted(tables);
    forall at, item
      ensures Placed(at, item) in table <==> SelectionAt(archs, db, models, at, item)
    {
      ChaptersMembers(tables, at, item);
    }
  }
}
