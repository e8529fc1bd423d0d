/** The two modes of starpu_perfmodel_recdump: dumping every performance model found, and dumping the entries that an
    input file asks for. */
module RecDump {
  import opened Wrappers
  import opened RecReader
  import opened RecWriter
  import opened Platform

  /** A model on one combination of architectures: nothing, or the history list of the first implementation. */
  datatype Comb = NoImplementation | History(entries: seq<Entry>)

  datatype Symbol = Symbol(name: string, combs: seq<Comb>)

  // ---------------------------------------------------------------- everything

  function EntryItems(name: string, arch: string, entries: seq<Entry>): (items: seq<Item>)
    ensures |items| == |entries|
    ensures forall i :: 0 <= i < |items| ==> items[i] == Record(name, arch, entries[i])
  {
    seq(|entries|, i requires 0 <= i < |entries| => Record(name, arch, entries[i]))
  }

  function CombItems(name: string, arch: string, comb: Comb): (items: seq<Item>) {
    match comb
    case NoImplementation => [Plain("\n")]
    case History(entries) => EntryItems(name, arch, entries)
  }

  function SymbolItems(archs: seq<string>, symbol: Symbol, n: nat): (items: seq<Item>)
    requires n <= |archs| == |symbol.combs|
  {
    if n == 0 then []
    else SymbolItems(archs, symbol, n - 1) + CombItems(symbol.name, archs[n - 1], symbol.combs[n - 1])
  }

  ghost predicate Shape(archs: seq<string>, symbols: seq<Symbol>) {
    forall i {:trigger symbols[i]} :: 0 <= i < |symbols| ==> |symbols[i].combs| == |archs|
  }

  function SymbolsItems(archs: seq<string>, symbols: seq<Symbol>): (items: seq<Item>)
    requires Shape(archs, symbols)
  {
    if symbols == [] then []
    else
      var n := |symbols| - 1;
      SymbolsItems(archs, symbols[..n]) + SymbolItems(archs, symbols[n], |archs|)
  }

  function PlainItems(lines: seq<string>): (items: seq<Item>)
    ensures |items| == |lines|
    ensures forall i :: 0 <= i < |items| ==> items[i] == Plain(lines[i])
  {
    seq(|lines|, i requires 0 <= i < |lines| => Plain(lines[i]))
  }

  const TIMING_HEADER: seq<string> := [Field("%rec", "timing"), "\n"]

  // ---------------------------------------------------------------- the symbols found

  /** The name is what stands before the last dot of the file name, or all of it when there is none. */
  ghost predicate IsStem(file: string, name: string) {
    if '.' in file then name < file && file[|name|] == '.' && '.' !in file[|name| + 1..] else name == file
  }

  lemma StemUnique(file: string, name: string, name': string)
    requires IsStem(file, name) && IsStem(file, name')
    ensures name == name'
  {
    if '.' in file {
      DotBehind(file, |name|, |name'|);
      DotBehind(file, |name'|, |name|);
    }
  }

  lemma DotBehind(file: string, i: nat, j: nat)
    requires i < |file| && j < |file| && file[j] == '.'
    ensures i < j ==> '.' in file[i + 1..]
  {
    assert i < j ==> file[i + 1..][j - i - 1] == '.';
  }

  /** `strrchr` for a dot, from the end, and the text up to it. */
  function StemTo(file: string, n: nat): (name: string)
    requires n <= |file| && '.' !in file[n..]
    ensures name <= file && IsStem(file, name)
  {
    if n == 0 then
      assert file[0..] == file;
      file
    else if file[n - 1] == '.' then file[..n - 1]
    else
      assert file[n - 1..] == [file[n - 1]] + file[n..];
      StemTo(file, n - 1)
  }

  function Stem(file: string): (name: string)
    ensures name <= file && IsStem(file, name)
  {
    StemTo(file, |file|)
  }

  /** What a file contributes: nothing when it is a directory entry of its own or its model cannot be loaded. */
  function FileSymbols(loaded: string -> Option<seq<Comb>>, file: string): (symbols: seq<Symbol>) {
    if file == "." || file == ".." then []
    else
      match loaded(Stem(file))
      case None => []
      case Some(combs) => [Symbol(Stem(file), combs)]
  }

  function DirSymbols(loaded: string -> Option<seq<Comb>>, files: seq<string>): (symbols: seq<Symbol>) {
    if files == [] then []
    else DirSymbols(loaded, files[..|files| - 1]) + FileSymbols(loaded, files[|files| - 1])
  }

  /** The directories in order; one that cannot be opened contributes nothing. */
  function AllSymbols(loaded: string -> Option<seq<Comb>>, dirs: seq<Option<seq<string>>>): (symbols: seq<Symbol>) {
    if dirs == [] then []
    else
      var last := dirs[|dirs| - 1];
      AllSymbols(loaded, dirs[..|dirs| - 1]) + (if last.Some? then DirSymbols(loaded, last.value) else [])
  }

  /** `starpu_perfmodel_load_symbol` gives a model for each combination. */
  ghost predicate Loads(archs: seq<string>, loaded: string -> Option<seq<Comb>>) {
    forall name {:trigger loaded(name)} :: loaded(name).Some? ==> |loaded(name).value| == |archs|
  }

  lemma {:induction false} DirShape(archs: seq<string>, loaded: string -> Option<seq<Comb>>, files: seq<string>)
    requires Loads(archs, loaded)
    ensures Shape(archs, DirSymbols(loaded, files))
  {
    if files != [] {
      DirShape(archs, loaded, files[..|files| - 1]);
    }
  }

  lemma {:induction false} AllShape(
    archs: seq<string>, loaded: string -> Option<seq<Comb>>, dirs: seq<Option<seq<string>>>)
    requires Loads(archs, loaded)
    ensures Shape(archs, AllSymbols(loaded, dirs))
  {
    if dirs != [] {
      AllShape(archs, loaded, dirs[..|dirs| - 1]);
      var last := dirs[|dirs| - 1];
      if last.Some? {
        DirShape(archs, loaded, last.value);
      }
    }
  }

  // ---------------------------------------------------------------- dumping them

  /** Everything, and then what `print_archs` says about the machine. */
  function DumpItems(archs: seq<string>, symbols: seq<Symbol>, m: Machine): (items: seq<Item>)
    requires Shape(archs, symbols)
  {
    PlainItems(TIMING_HEADER) + SymbolsItems(archs, symbols) + PlainItems(PlatformLines(m))
  }

  lemma OneMoreSymbol(archs: seq<string>, symbols: seq<Symbol>, symbol: Symbol)
    requires Shape(archs, symbols) && |symbol.combs| == |archs|
    ensures Shape(archs, symbols + [symbol])
    ensures SymbolsItems(archs, symbols + [symbol]) == SymbolsItems(archs, symbols) + SymbolItems(archs, symbol, |archs|)
  {
    assert (symbols + [symbol])[..|symbols|] == symbols;
  }

  lemma NextFile(loaded: string -> Option<seq<Comb>>, files: seq<string>, f: nat, before: seq<Symbol>)
    requires f < |files|
    ensures before + DirSymbols(loaded, files[..f + 1])
         == (before + DirSymbols(loaded, files[..f])) + FileSymbols(loaded, files[f])
  {
    var upto := files[..f + 1];
    assert upto[..f] == files[..f] && upto[f] == files[f];
  }

  lemma NextDirectory(loaded: string -> Option<seq<Comb>>, dirs: seq<Option<seq<string>>>, d: nat)
    requires d < |dirs|
    ensures AllSymbols(loaded, dirs[..d + 1])
         == AllSymbols(loaded, dirs[..d]) + (if dirs[d].Some? then DirSymbols(loaded, dirs[d].value) else [])
    ensures dirs[d].None? ==> AllSymbols(loaded, dirs[..d + 1]) == AllSymbols(loaded, dirs[..d])
  {
    var upto := dirs[..d + 1];
    assert upto[..d] == dirs[..d] && upto[d] == dirs[d];
  }

  /** The loops over the directories and their files. */
  method DumpAll(archs: seq<string>, loaded: string -> Option<seq<Comb>>, dirs: seq<Option<seq<string>>>, m: Machine)
    returns (items: seq<Item>)
    requires Loads(archs, loaded)
    ensures Shape(archs, AllSymbols(loaded, dirs)) && items == DumpItems(archs, AllSymbols(loaded, dirs), m)
  {
    items := [];
    for d := 0 to |dirs|
      invariant Shape(archs, AllSymbols(loaded, dirs[..d])) && items == SymbolsItems(archs, AllSymbols(loaded, dirs[..d]))
    {
      NextDirectory(loaded, dirs, d);
      if dirs[d].Some? {
        items := DumpDirectory(items, archs, loaded, dirs[d].value, AllSymbols(loaded, dirs[..d]));
      }
    }
    assert dirs[..|dirs|] == dirs;
    var platform := PrintArchs(m);
    items := PlainItems(TIMING_HEADER) + items + PlainItems(platform);
  }

  /** `before` are the symbols dumped so far. */
  method DumpDirectory(
    sofar: seq<Item>, archs: seq<string>, loaded: string -> Option<seq<Comb>>, files: seq<string>,
    ghost before: seq<Symbol>)
    returns (items: seq<Item>)
    requires Loads(archs, loaded) && Shape(archs, before) && sofar == SymbolsItems(archs, before)
    ensures Shape(archs, before + DirSymbols(loaded, files))
    ensures items == SymbolsItems(archs, before + DirSymbols(loaded, files))
  {
    items := sofar;
    ghost var symbols := before;
    for f := 0 to |files|
      invariant symbols == before + DirSymbols(loaded, files[..f])
      invariant Shape(archs, symbols) && items == SymbolsItems(archs, symbols)
    {
      NextFile(loaded, files, f, before);
      items := DumpFile(items, archs, loaded, files[f], symbols);
      symbols := symbols + FileSymbols(loaded, files[f]);
    }
    assert files[..|files|] == files;
  }

  method DumpFile(
    sofar: seq<Item>, archs: seq<string>, loaded: string -> Option<seq<Comb>>, file: string, ghost before: seq<Symbol>)
    returns (items: seq<Item>)
    requires Loads(archs, loaded) && Shape(archs, before) && sofar == SymbolsItems(archs, before)
    ensures Shape(archs, before + FileSymbols(loaded, file))
    ensures items == SymbolsItems(archs, before + FileSymbols(loaded, file))
  {
    if file == "." || file == ".." || loaded(Stem(file)).None? {
      assert before + FileSymbols(loaded, file) == before;
      return sofar;
    }
    var symbol := Symbol(Stem(file), loaded(Stem(file)).value);
    OneMoreSymbol(archs, before, symbol);
    items := DumpSymbol(sofar, archs, symbol);
  }

  method DumpSymbol(sofar: seq<Item>, archs: seq<string>, symbol: Symbol) returns (items: seq<Item>)
    requires |archs| == |symbol.combs|
    ensures items == sofar + SymbolItems(archs, symbol, |archs|)
  {
    items := sofar;
    for comb := 0 to |archs|
      invariant items == sofar + SymbolItems(archs, symbol, comb)
    {
      match symbol.combs[comb] {
        case NoImplementation =>
          items := items + [Plain("\n")];
        case History(entries) =>
          ghost var start := items;
          for ptr := 0 to |entries|
            invariant items == start + EntryItems(symbol.name, archs[comb], entries[..ptr])
          {
            items := items + [Record(symbol.name, archs[comb], entries[ptr])];
          }
          assert entries[..|entries|] == entries;
      }
    }
  }

  // ---------------------------------------------------------------- what an input file asks for

  /** The first entry of the list with this footprint. */
  function FirstWith(entries: seq<Entry>, f: nat): (i: nat)
    ensures i <= |entries|
    ensures i < |entries| ==> entries[i].footprint == f
    ensures forall j {:trigger entries[j]} :: 0 <= j < i ==> entries[j].footprint != f
  {
    if entries == [] || entries[0].footprint == f then 0 else 1 + FirstWith(entries[1..], f)
  }

  function PickItems(name: string, arch: string, comb: Comb, f: nat): (items: seq<Item>) {
    match comb
    case NoImplementation => []
    case History(entries) =>
      var i := FirstWith(entries, f);
      if i < |entries| then [Record(name, arch, entries[i])] else []
  }

  function FootprintItems(archs: seq<string>, symbol: Symbol, f: nat, n: nat): (items: seq<Item>)
    requires n <= |archs| == |symbol.combs|
  {
    if n == 0 then []
    else FootprintItems(archs, symbol, f, n - 1) + PickItems(symbol.name, archs[n - 1], symbol.combs[n - 1], f)
  }

  function ListItems(archs: seq<string>, symbol: Symbol, list: Footprints): (items: seq<Item>)
    requires |archs| == |symbol.combs|
  {
    match list
    case Nil => []
    case Cons(f, next) => FootprintItems(archs, symbol, f, |archs|) + ListItems(archs, symbol, next)
  }

  /** `db` gives the loaded model of each name. */
  ghost predicate Database(archs: seq<string>, db: string -> seq<Comb>) {
    forall name {:trigger db(name)} :: |db(name)| == |archs|
  }

  function ModelsItems(archs: seq<string>, db: string -> seq<Comb>, models: seq<Model>): (items: seq<Item>)
    requires Database(archs, db)
  {
    if models == [] then []
    else
      var m := models[|models| - 1];
      ModelsItems(archs, db, models[..|models| - 1]) + ListItems(archs, Symbol(m.name, db(m.name)), m.footprints)
  }

  function Selection(archs: seq<string>, db: string -> seq<Comb>, m: Machine, models: seq<Model>): (items: seq<Item>)
    requires Database(archs, db)
  {
    PlainItems(PlatformLines(m)) + PlainItems(TIMING_HEADER) + ModelsItems(archs, db, models)
  }

  lemma NextModel(archs: seq<string>, db: string -> seq<Comb>, models: seq<Model>, k: nat)
    requires Database(archs, db) && k < |models|
    ensures var m := models[k];
      ModelsItems(archs, db, models[..k + 1])
        == ModelsItems(archs, db, models[..k]) + ListItems(archs, Symbol(m.name, db(m.name)), m.footprints)
  {
    var first := models[..k + 1];
    assert first[..k] == models[..k] && first[k] == models[k];
  }

  method DumpSelection(archs: seq<string>, db: string -> seq<Comb>, m: Machine, models: seq<Model>)
    returns (items: seq<Item>)
    requires Database(archs, db)
    ensures items == Selection(archs, db, m, models)
  {
    var platform := PrintArchs(m);
    items := PlainItems(platform) + PlainItems(TIMING_HEADER);
    ghost var header := items;
    for k := 0 to |models|
      invariant items == header + ModelsItems(archs, db, models[..k])
    {
      NextModel(archs, db, models, k);
      items := DumpModel(items, archs, Symbol(models[k].name, db(models[k].name)), models[k].footprints);
    }
    assert models[..|models|] == models;
  }

  method DumpModel(sofar: seq<Item>, archs: seq<string>, symbol: Symbol, list: Footprints) returns (items: seq<Item>)
    requires |archs| == |symbol.combs|
    ensures items == sofar + ListItems(archs, symbol, list)
  {
    items := sofar;
    var lf := list;
    while lf.Cons?
      invariant items + ListItems(archs, symbol, lf) == sofar + ListItems(archs, symbol, list)
      decreases lf
    {
      items := DumpFootprint(items, archs, symbol, lf.footprint);
      lf := lf.next;
    }
    assert items + [] == items;
  }

  method DumpFootprint(sofar: seq<Item>, archs: seq<string>, symbol: Symbol, f: nat) returns (items: seq<Item>)
    requires |archs| == |symbol.combs|
    ensures items == sofar + FootprintItems(archs, symbol, f, |archs|)
  {
    items := sofar;
    for comb := 0 to |archs|
      invariant items == sofar + FootprintItems(archs, symbol, f, comb)
    {
      if symbol.combs[comb].History? {
        var entries, ptr := symbol.combs[comb].entries, 0;
        while ptr < |entries| && entries[ptr].footprint != f
          invariant ptr <= |entries| && forall j {:trigger entries[j]} :: 0 <= j < ptr ==> entries[j].footprint != f
        {
          ptr := ptr + 1;
        }
        assert ptr == FirstWith(entries, f);
        if ptr < |entries| {
          items := items + [Record(symbol.name, archs[comb], entries[ptr])];
        }
      }
    }
  }
}
