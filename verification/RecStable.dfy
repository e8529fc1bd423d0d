/** Running the tool on its own output, in detail: which models and footprints come back, in which order, and that the
    second round restores the text of the first. */
module RecStable {
  import opened RecText
  import opened RecReader
  import opened RecMeaning
  import opened RecWriter
  import opened Platform
  import opened RecDump
  import opened RecRoundTrip

  // ---------------------------------------------------------------- collecting records one after the other

  function CollectInto(models: seq<Model>, items: seq<Item>): (models': seq<Model>) {
    if items == [] then models
    else
      var before := CollectInto(models, items[..|items| - 1]);
      match items[|items| - 1]
      case Plain(_) => before
      case Record(name, _, e) => WithRecord(before, name, e.footprint)
  }

  lemma {:induction false} CollectedIsInto(items: seq<Item>)
    ensures Collected(items) == CollectInto([], items)
  {
    if items != [] {
      CollectedIsInto(items[..|items| - 1]);
    }
  }

  lemma {:induction false} CollectAppend(models: seq<Model>, a: seq<Item>, b: seq<Item>)
    ensures CollectInto(models, a + b) == CollectInto(CollectInto(models, a), b)
    decreases |b|
  {
    if b == [] {
      assert a + b == a;
    } else {
      assert (a + b)[..|a + b| - 1] == a + b[..|b| - 1];
      CollectAppend(models, a, b[..|b| - 1]);
    }
  }

  lemma {:induction false} CollectPlain(models: seq<Model>, lines: seq<string>)
    ensures CollectInto(models, PlainItems(lines)) == models
  {
    if lines != [] {
      assert PlainItems(lines)[..|lines| - 1] == PlainItems(lines[..|lines| - 1]);
      CollectPlain(models, lines[..|lines| - 1]);
    }
  }

  /** A model that is the last one or new. */
  function Put(models: seq<Model>, name: string, list: Footprints): (models': seq<Model>) {
    if list.Nil? then models else models + [Model(name, list)]
  }

  ghost predicate Unnamed(models: seq<Model>, name: string) {
    forall i {:trigger models[i]} :: 0 <= i < |models| ==> models[i].name != name
  }

  lemma RecordPut(models: seq<Model>, name: string, list: Footprints, f: nat)
    requires Unnamed(models, name)
    ensures WithRecord(Put(models, name, list), name, f) == Put(models, name, WithFootprint(list, f))
  {
    var all := Put(models, name, list);
    var i := Find(all, name);
    assert forall k {:trigger all[k]} :: 0 <= k < |models| ==> all[k] == models[k] && all[k].name != name;
    assert list.Cons? ==> all[|models|].name == name;
  }

  /** Records of one model and one footprint: the first of them files it. */
  lemma {:induction false} CollectOne(models: seq<Model>, name: string, list: Footprints, f: nat, items: seq<Item>)
    requires Unnamed(models, name) && f !in Items(list)
    requires forall i {:trigger items[i]} :: 0 <= i < |items| ==>
      items[i].Record? && items[i].name == name && items[i].entry.footprint == f
    ensures CollectInto(Put(models, name, list), items) == Put(models, name, if items == [] then list else Cons(f, list))
  {
    if items != [] {
      var first := items[..|items| - 1];
      CollectOne(models, name, list, f, first);
      var sofar := if first == [] then list else Cons(f, list);
      RecordPut(models, name, sofar, f);
      assert f in Items(Cons(f, list));
    }
  }

  // ---------------------------------------------------------------- what is kept of a list

  function Prints(archs: seq<string>, symbol: Symbol, f: nat): (items: seq<Item>)
    requires |archs| == |symbol.combs|
  {
    FootprintItems(archs, symbol, f, |archs|)
  }

  /** The footprints with an entry, last first, before `onto`: what reading the records of a list leaves. */
  function KeptOnto(archs: seq<string>, symbol: Symbol, list: Footprints, onto: Footprints): (kept: Footprints)
    requires |archs| == |symbol.combs|
  {
    match list
    case Nil => onto
    case Cons(f, next) =>
      KeptOnto(archs, symbol, next, if Prints(archs, symbol, f) == [] then onto else Cons(f, onto))
  }

  /** The same in order. */
  function FilterOnto(archs: seq<string>, symbol: Symbol, list: Footprints, onto: Footprints): (kept: Footprints)
    requires |archs| == |symbol.combs|
  {
    match list
    case Nil => onto
    case Cons(f, next) =>
      var rest := FilterOnto(archs, symbol, next, onto);
      if Prints(archs, symbol, f) == [] then rest else Cons(f, rest)
  }

  ghost predicate Printable(archs: seq<string>, symbol: Symbol, list: Footprints)
    requires |archs| == |symbol.combs|
  {
    match list
    case Nil => true
    case Cons(f, next) => Prints(archs, symbol, f) != [] && Printable(archs, symbol, next)
  }

  lemma {:induction false} KeptIsPrintable(archs: seq<string>, symbol: Symbol, list: Footprints, onto: Footprints)
    requires |archs| == |symbol.combs| && Printable(archs, symbol, onto)
    ensures Printable(archs, symbol, KeptOnto(archs, symbol, list, onto))
    decreases list
  {
    match list {
      case Nil =>
      case Cons(f, next) =>
        KeptIsPrintable(archs, symbol, next, if Prints(archs, symbol, f) == [] then onto else Cons(f, onto));
    }
  }

  /** Twice is the order again. */
  lemma {:induction false} KeptTwice(
    archs: seq<string>, symbol: Symbol, list: Footprints, onto: Footprints, more: Footprints)
    requires |archs| == |symbol.combs| && Printable(archs, symbol, onto)
    ensures KeptOnto(archs, symbol, KeptOnto(archs, symbol, list, onto), more)
         == KeptOnto(archs, symbol, onto, FilterOnto(archs, symbol, list, more))
    decreases list
  {
    match list {
      case Nil =>
      case Cons(f, next) =>
        KeptTwice(archs, symbol, next, if Prints(archs, symbol, f) == [] then onto else Cons(f, onto), more);
    }
  }

  lemma {:induction false} FilterPrintsSame(archs: seq<string>, symbol: Symbol, list: Footprints)
    requires |archs| == |symbol.combs|
    ensures ListItems(archs, symbol, FilterOnto(archs, symbol, list, Nil)) == ListItems(archs, symbol, list)
    decreases list
  {
    match list {
      case Nil =>
      case Cons(f, next) =>
        FilterPrintsSame(archs, symbol, next);
        assert [] + ListItems(archs, symbol, next) == ListItems(archs, symbol, next);
    }
  }

  lemma {:induction false} KeptPrintsSame(archs: seq<string>, symbol: Symbol, list: Footprints, onto: Footprints)
    requires |archs| == |symbol.combs|
    ensures multiset(ListItems(archs, symbol, KeptOnto(archs, symbol, list, onto)))
         == multiset(ListItems(archs, symbol, list)) + multiset(ListItems(archs, symbol, onto))
    decreases list
  {
    match list {
      case Nil =>
      case Cons(f, next) =>
        KeptPrintsSame(archs, symbol, next, if Prints(archs, symbol, f) == [] then onto else Cons(f, onto));
    }
  }

  // ---------------------------------------------------------------- reading a list, and all lists

  lemma FootprintAlike(archs: seq<string>, symbol: Symbol, f: nat)
    requires |archs| == |symbol.combs|
    ensures forall i {:trigger Prints(archs, symbol, f)[i]} :: 0 <= i < |Prints(archs, symbol, f)| ==>
      var item := Prints(archs, symbol, f)[i];
      item.Record? && item.name == symbol.name && item.entry.footprint == f
  {
    var items := Prints(archs, symbol, f);
    forall i | 0 <= i < |items|
      ensures items[i].Record? && items[i].name == symbol.name && items[i].entry.footprint == f
    {
      FootprintRecords(archs, symbol, f, |archs|, items[i]);
    }
  }

  ghost predicate Apart(list: Footprints, onto: Footprints) {
    Distinct(Items(list)) && forall f {:trigger f in Items(list)} :: f in Items(list) ==> f !in Items(onto)
  }

  lemma {:induction false} CollectList(
    archs: seq<string>, symbol: Symbol, models: seq<Model>, list: Footprints, onto: Footprints)
    requires |archs| == |symbol.combs| && Unnamed(models, symbol.name) && Apart(list, onto)
    ensures CollectInto(Put(models, symbol.name, onto), ListItems(archs, symbol, list))
         == Put(models, symbol.name, KeptOnto(archs, symbol, list, onto))
    decreases list
  {
    match list {
      case Nil =>
      case Cons(f, next) =>
        var items := Prints(archs, symbol, f);
        var onto' := if items == [] then onto else Cons(f, onto);
        CollectAppend(Put(models, symbol.name, onto), items, ListItems(archs, symbol, next));
        FootprintAlike(archs, symbol, f);
        assert Items(list)[0] == f && f in Items(list) && Items(list)[1..] == Items(next);
        CollectOne(models, symbol.name, onto, f, items);
        assert Apart(next, onto') by {
          forall g | g in Items(next)
            ensures g !in Items(onto')
          {
            assert g in Items(list);
            var k :| 0 <= k < |Items(next)| && Items(next)[k] == g;
            assert Items(list)[k + 1] == g;
          }
        }
        CollectList(archs, symbol, models, next, onto');
    }
  }

  function SymbolOf(db: string -> seq<Comb>, model: Model): (symbol: Symbol) {
    Symbol(model.name, db(model.name))
  }

  /** What comes back: the models with a record, and their footprints with one, each list reversed. */
  function Kept(archs: seq<string>, db: string -> seq<Comb>, models: seq<Model>): (kept: seq<Model>)
    requires Database(archs, db)
  {
    if models == [] then []
    else
      var m := models[|models| - 1];
      Put(Kept(archs, db, models[..|models| - 1]), m.name, KeptOnto(archs, SymbolOf(db, m), m.footprints, Nil))
  }

  lemma {:induction false} KeptNames(archs: seq<string>, db: string -> seq<Comb>, models: seq<Model>, name: string)
    requires Database(archs, db) && Unnamed(models, name)
    ensures Unnamed(Kept(archs, db, models), name)
  {
    if models != [] {
      KeptNames(archs, db, models[..|models| - 1], name);
    }
  }

  lemma {:induction false} CollectModels(archs: seq<string>, db: string -> seq<Comb>, models: seq<Model>)
    requires Database(archs, db) && Tidy(models)
    ensures CollectInto([], ModelsItems(archs, db, models)) == Kept(archs, db, models)
  {
    if models != [] {
      var first, m := models[..|models| - 1], models[|models| - 1];
      CollectModels(archs, db, first);
      KeptNames(archs, db, first, m.name);
      CollectAppend([], ModelsItems(archs, db, first), ListItems(archs, SymbolOf(db, m), m.footprints));
      assert Distinct(Items(m.footprints));
      CollectList(archs, SymbolOf(db, m), Kept(archs, db, first), m.footprints, Nil);
    }
  }

  lemma CollectSelection(archs: seq<string>, db: string -> seq<Comb>, m: Machine, models: seq<Model>)
    requires Database(archs, db) && Tidy(models)
    ensures Collected(Selection(archs, db, m, models)) == Kept(archs, db, models)
  {
    var a, b, c := PlainItems(PlatformLines(m)), PlainItems(TIMING_HEADER), ModelsItems(archs, db, models);
    CollectedIsInto(a + b + c);
    CollectAppend([], a + b, c);
    CollectAppend([], a, b);
    CollectPlain([], PlatformLines(m));
    CollectPlain([], TIMING_HEADER);
    CollectModels(archs, db, models);
  }

  // ---------------------------------------------------------------- printing what is kept

  lemma PrintPut(archs: seq<string>, db: string -> seq<Comb>, models: seq<Model>, name: string, list: Footprints)
    requires Database(archs, db)
    ensures ModelsItems(archs, db, Put(models, name, list))
         == ModelsItems(archs, db, models) + ListItems(archs, Symbol(name, db(name)), list)
  {
    if list.Cons? {
      assert Put(models, name, list)[..|models|] == models;
    }
  }

  /** The same records, each as often. */
  lemma {:induction false} KeptSameRecords(archs: seq<string>, db: string -> seq<Comb>, models: seq<Model>)
    requires Database(archs, db)
    ensures multiset(ModelsItems(archs, db, Kept(archs, db, models))) == multiset(ModelsItems(archs, db, models))
  {
    if models != [] {
      var first, m := models[..|models| - 1], models[|models| - 1];
      var kept := KeptOnto(archs, SymbolOf(db, m), m.footprints, Nil);
      KeptSameRecords(archs, db, first);
      PrintPut(archs, db, Kept(archs, db, first), m.name, kept);
      KeptPrintsSame(archs, SymbolOf(db, m), m.footprints, Nil);
    }
  }

  lemma KeptPut(archs: seq<string>, db: string -> seq<Comb>, models: seq<Model>, name: string, list: Footprints)
    requires Database(archs, db) && Printable(archs, Symbol(name, db(name)), list)
    ensures Kept(archs, db, Put(models, name, list))
         == Put(Kept(archs, db, models), name, KeptOnto(archs, Symbol(name, db(name)), list, Nil))
  {
    if list.Cons? {
      assert Put(models, name, list)[..|models|] == models;
    }
  }

  /** After two rounds everything is in its place again. */
  lemma {:induction false} KeptTwiceSameOutput(archs: seq<string>, db: string -> seq<Comb>, models: seq<Model>)
    requires Database(archs, db)
    ensures ModelsItems(archs, db, Kept(archs, db, Kept(archs, db, models))) == ModelsItems(archs, db, models)
  {
    if models != [] {
      var first, m := models[..|models| - 1], models[|models| - 1];
      var symbol := SymbolOf(db, m);
      var kept := KeptOnto(archs, symbol, m.footprints, Nil);
      KeptTwiceSameOutput(archs, db, first);
      KeptIsPrintable(archs, symbol, m.footprints, Nil);
      KeptPut(archs, db, Kept(archs, db, first), m.name, kept);
      PrintPut(archs, db, Kept(archs, db, Kept(archs, db, first)), m.name, KeptOnto(archs, symbol, kept, Nil));
      KeptTwice(archs, symbol, m.footprints, Nil, Nil);
      FilterPrintsSame(archs, symbol, m.footprints);
    }
  }

  // ---------------------------------------------------------------- the theorem

  lemma {:induction false} ShortByItems(items: seq<Item>)
    ensures Short(DocLines(items)) <==> forall item {:trigger item in items} :: item in items ==> Short(ItemLines(item))
  {
    if items != [] {
      var first, last := items[..|items| - 1], items[|items| - 1];
      ShortByItems(first);
      assert items == first + [last];
      assert forall item {:trigger item in items} {:trigger item in first} ::
        item in items <==> item in first || item == last;
      ShortAppend(DocLines(first), ItemLines(last));
      assert last in items;
    }
  }

  lemma ShortAppend(a: seq<string>, b: seq<string>)
    ensures Short(a + b) <==> Short(a) && Short(b)
  {
    if Short(a + b) {
      ShortParts(a, b);
    }
  }

  /** Items with the same members are accepted alike. */
  lemma SameMembers(load: string -> bool, items: seq<Item>, items': seq<Item>)
    requires forall item {:trigger item in items'} :: item in items' ==> item in items
    requires GoodItems(items) && Loadable(load, items) && Short(DocLines(items))
    ensures GoodItems(items') && Loadable(load, items') && Short(DocLines(items'))
  {
    ShortByItems(items);
    ShortByItems(items');
    forall i | 0 <= i < |items'|
      ensures GoodItem(items'[i]) && (items'[i].Record? ==> load(items'[i].name))
    {
      assert items'[i] in items';
      var k :| 0 <= k < |items| && items[k] == items'[i];
    }
  }

  /** Running the tool on its own output. For every input file that it accepts: the output is accepted in turn exactly
      when no line is too long. Then it asks for those pairs of the input that the models have an entry for; running the
      tool on it prints the same records, each as often, with the footprints of each model in reverse order; and running
      it on that prints the first output again, character by character. */
  lemma SelectionIsStable(load: string -> bool, archs: seq<string>, db: string -> seq<Comb>, m: Machine, text: string)
    requires Database(archs, db) && OneLineNames(archs, m)
    requires forall name {:trigger db(name)} :: GoodCombs(db(name))
    requires ReadText(load, text).Ok?
    ensures var models := ReadText(load, text).value.models;
      var items := Selection(archs, db, m, models);
      var r := ReadText(load, Text(items));
      && (r.Ok? <==> Short(DocLines(items)))
      && (r.Ok? ==>
            && r.value.models == Kept(archs, db, models)
            && (forall name, f {:trigger Listed(r.value.models, name, f)} :: Listed(r.value.models, name, f) <==>
                  Listed(models, name, f) && exists arch, e :: Picked(archs, db(name), arch, e) && e.footprint == f)
            && var items' := Selection(archs, db, m, r.value.models);
               && multiset(items') == multiset(items)
               && var r' := ReadText(load, Text(items'));
                  r'.Ok? && Text(Selection(archs, db, m, r'.value.models)) == Text(items))
  {
    var models := ReadText(load, text).value.models;
    var items := Selection(archs, db, m, models);
    ReadFindsWhatIsWanted(load, CStrings(Chunks(text)));
    SelectionIsGood(load, archs, db, m, text);
    WriteThenRead(load, items);
    var r := ReadText(load, Text(items));
    if r.Ok? {
      forall name, f
        ensures Listed(r.value.models, name, f) <==>
                Listed(models, name, f) && exists arch, e :: Picked(archs, db(name), arch, e) && e.footprint == f
      {
        SelectionHasRecord(archs, db, m, models, name, f);
      }
      CollectSelection(archs, db, m, models);
      SecondRound(load, archs, db, m, models);
    }
  }

  lemma SecondRound(load: string -> bool, archs: seq<string>, db: string -> seq<Comb>, m: Machine, models: seq<Model>)
    requires Database(archs, db) && Tidy(Kept(archs, db, models))
    requires var items := Selection(archs, db, m, models);
      GoodItems(items) && Loadable(load, items) && Short(DocLines(items))
    ensures var items, items' := Selection(archs, db, m, models), Selection(archs, db, m, Kept(archs, db, models));
      && multiset(items') == multiset(items)
      && var r' := ReadText(load, Text(items'));
         r'.Ok? && Selection(archs, db, m, r'.value.models) == items
  {
    var items, items' := Selection(archs, db, m, models), Selection(archs, db, m, Kept(archs, db, models));
    KeptSameRecords(archs, db, models);
    assert multiset(items') == multiset(items);
    forall item | item in items'
      ensures item in items
    {
      assert item in multiset(items');
    }
    SameMembers(load, items, items');
    WriteThenRead(load, items');
    CollectSelection(archs, db, m, Kept(archs, db, models));
    KeptTwiceSameOutput(archs, db, models);
  }
}
