/** What a rec file asks for, said about its lines and not about the reader's variables, and that the reader finds exactly
    that. */
module RecMeaning {
  import opened Wrappers
  import opened RecText
  import opened RecReader

  /** The line is the key, the name and one more character, which is taken to be the newline. */
  ghost predicate Names(line: string, name: string) {
    "Model: " + name <= line && |line| == |"Model: "| + |name| + 1
  }

  lemma NamesOf(line: string, name: string)
    ensures Names(line, name) <==> IsModel(line) && line != "Model: " && NameOf(line) == name
  {
    var key := "Model: ";
    if Names(line, name) {
      assert line[..|key|] == (key + name)[..|key|] == key && line[0] == key[0];
      assert line[|key|..|line| - 1] == (key + name)[|key|..] == name;
    }
  }

  /** Line i is the last "Model" line before line j, and no blank line is in between. */
  ghost predicate NamedAt(lines: seq<string>, i: nat, j: nat, name: string) {
    && i < j <= |lines| && Names(lines[i], name)
    && forall m {:trigger lines[m]} :: i < m < j ==> !IsModel(lines[m]) && !IsBlank(lines[m])
  }

  ghost predicate Named(lines: seq<string>, j: nat, name: string) {
    exists i: nat {:trigger NamedAt(lines, i, j, name)} :: NamedAt(lines, i, j, name)
  }

  /** Line i is the last "Footprint" line before line j. */
  ghost predicate PrintAt(lines: seq<string>, i: nat, j: nat, f: nat) {
    && i < j <= |lines| && IsFootprint(lines[i]) && FootprintOf(lines[i]) == f
    && forall m {:trigger lines[m]} :: i < m < j ==> !IsFootprint(lines[m])
  }

  ghost predicate NoPrint(lines: seq<string>, j: nat) {
    j <= |lines| && forall m {:trigger lines[m]} :: 0 <= m < j ==> !IsFootprint(lines[m])
  }

  /** The footprint in force at line j; a record without one inherits that of an earlier record, or 0. */
  ghost predicate Print(lines: seq<string>, j: nat, f: nat) {
    || (exists i: nat {:trigger PrintAt(lines, i, j, f)} :: PrintAt(lines, i, j, f))
    || (f == 0 && NoPrint(lines, j))
  }

  /** The blank line j ends a record of this model with this footprint. */
  ghost predicate WantsAt(lines: seq<string>, j: nat, name: string, f: nat) {
    j < |lines| && IsBlank(lines[j]) && Named(lines, j, name) && Print(lines, j, f)
  }

  ghost predicate Wants(lines: seq<string>, name: string, f: nat) {
    exists j: nat {:trigger WantsAt(lines, j, name, f)} :: WantsAt(lines, j, name, f)
  }

  /** A file that the tool accepts. */
  ghost predicate GoodLine(line: string) {
    |line| != LINE_MAX && line != "Model: " && (IsBlank(line) || ':' in line)
  }

  ghost predicate Acceptable(load: string -> bool, lines: seq<string>) {
    && (forall m {:trigger lines[m]} :: 0 <= m < |lines| ==> GoodLine(lines[m]))
    && (forall name, f {:trigger Wants(lines, name, f)} :: Wants(lines, name, f) ==> load(name))
  }

  ghost predicate ListedAt(models: seq<Model>, i: nat, name: string, f: nat) {
    i < |models| && models[i].name == name && f in Items(models[i].footprints)
  }

  ghost predicate Listed(models: seq<Model>, name: string, f: nat) {
    exists i: nat {:trigger ListedAt(models, i, name, f)} :: ListedAt(models, i, name, f)
  }

  ghost predicate Distinct(fs: seq<nat>) {
    forall i, j {:trigger fs[i], fs[j]} :: 0 <= i < j < |fs| ==> fs[i] != fs[j]
  }

  /** Each model once, with at least one footprint, and each footprint once. */
  ghost predicate Tidy(models: seq<Model>) {
    && (forall i, j {:trigger models[i], models[j]} :: 0 <= i < j < |models| ==> models[i].name != models[j].name)
    && (forall i {:trigger models[i]} :: 0 <= i < |models| ==>
          models[i].footprints.Cons? && Distinct(Items(models[i].footprints)))
  }

  // ---------------------------------------------------------------- one more line

  lemma NamedNext(lines: seq<string>, line: string, name: string)
    ensures var lines', n := lines + [line], |lines|;
      Named(lines', n + 1, name) <==>
        if IsModel(line) then line != "Model: " && NameOf(line) == name
        else !IsBlank(line) && Named(lines, n, name)
  {
    var lines', n := lines + [line], |lines|;
    assert lines'[n] == line;
    assert forall m {:trigger lines[m]} {:trigger lines'[m]} :: 0 <= m < n ==> lines'[m] == lines[m];
    NamesOf(line, name);
    if Names(line, name) {
      assert NamedAt(lines', n, n + 1, name);
    }
    if Named(lines', n + 1, name) {
      var i: nat :| NamedAt(lines', i, n + 1, name);
      assert i < n ==> NamedAt(lines, i, n, name);
    }
    if Named(lines, n, name) && !IsModel(line) && !IsBlank(line) {
      var i: nat :| NamedAt(lines, i, n, name);
      assert NamedAt(lines', i, n + 1, name);
    }
  }

  lemma PrintNext(lines: seq<string>, line: string, f: nat)
    ensures var lines', n := lines + [line], |lines|;
      Print(lines', n + 1, f) <==> if IsFootprint(line) then FootprintOf(line) == f else Print(lines, n, f)
  {
    var lines', n := lines + [line], |lines|;
    assert lines'[n] == line;
    assert forall m {:trigger lines[m]} {:trigger lines'[m]} :: 0 <= m < n ==> lines'[m] == lines[m];
    if IsFootprint(line) {
      assert PrintAt(lines', n, n + 1, FootprintOf(line));
    } else {
      assert NoPrint(lines, n) <==> NoPrint(lines', n + 1);
      if Print(lines', n + 1, f) && !NoPrint(lines', n + 1) {
        var i: nat :| PrintAt(lines', i, n + 1, f);
        assert PrintAt(lines, i, n, f);
      }
      if Print(lines, n, f) && !NoPrint(lines, n) {
        var i: nat :| PrintAt(lines, i, n, f);
        assert PrintAt(lines', i, n + 1, f);
      }
    }
  }

  lemma WantsNext(lines: seq<string>, line: string, name: string, f: nat)
    ensures var n := |lines|;
      Wants(lines + [line], name, f) <==>
        Wants(lines, name, f) || (IsBlank(line) && Named(lines, n, name) && Print(lines, n, f))
  {
    var lines', n := lines + [line], |lines|;
    forall j: nat | j <= n
      ensures Named(lines', j, name) <==> Named(lines, j, name)
      ensures Print(lines', j, f) <==> Print(lines, j, f)
    {
      PrefixDecides(lines, lines', j, name, f);
    }
    assert lines'[n] == line;
    forall j: nat | j < n
      ensures WantsAt(lines', j, name, f) <==> WantsAt(lines, j, name, f)
    {
      assert lines'[j] == lines[j];
    }
    if IsBlank(line) && Named(lines, n, name) && Print(lines, n, f) {
      assert WantsAt(lines', n, name, f);
    }
    if Wants(lines, name, f) {
      var j: nat :| WantsAt(lines, j, name, f);
      assert WantsAt(lines', j, name, f);
    }
  }

  lemma PrefixDecides(lines: seq<string>, lines': seq<string>, j: nat, name: string, f: nat)
    requires lines <= lines' && j <= |lines|
    ensures Named(lines', j, name) <==> Named(lines, j, name)
    ensures Print(lines', j, f) <==> Print(lines, j, f)
  {
    assert forall m {:trigger lines[m]} {:trigger lines'[m]} :: 0 <= m < j ==> lines'[m] == lines[m];
    forall i: nat
      ensures NamedAt(lines', i, j, name) <==> NamedAt(lines, i, j, name)
      ensures PrintAt(lines', i, j, f) <==> PrintAt(lines, i, j, f)
    {
    }
  }

  lemma PrintOnce(lines: seq<string>, j: nat, f: nat, f': nat)
    requires Print(lines, j, f) && Print(lines, j, f')
    ensures f == f'
  {
  }

  // ---------------------------------------------------------------- one more record

  lemma RecordListed(models: seq<Model>, name: string, f: nat, name': string, f': nat)
    requires Tidy(models)
    ensures Listed(WithRecord(models, name, f), name', f') <==>
            Listed(models, name', f') || (name' == name && f' == f)
  {
    var models', k := WithRecord(models, name, f), Find(models, name);
    assert ListedAt(models', k, name, f);
    forall i: nat | i < |models|
      ensures ListedAt(models', i, name', f') <==> ListedAt(models, i, name', f') || (i == k && name' == name && f' == f)
    {
    }
    if Listed(models, name', f') {
      var i: nat :| ListedAt(models, i, name', f');
      assert ListedAt(models', i, name', f');
    }
  }

  lemma RecordTidy(models: seq<Model>, name: string, f: nat)
    requires Tidy(models)
    ensures Tidy(WithRecord(models, name, f))
  {
    var models', k := WithRecord(models, name, f), Find(models, name);
    if k < |models| {
      assert models[k].footprints.Cons? && Distinct(Items(models[k].footprints));
    }
    assert Distinct(Items(models'[k].footprints));
  }

  // ---------------------------------------------------------------- the reader's variables

  /** Between two lines: what each variable says about the lines read so far. */
  ghost predicate Means(load: string -> bool, lines: seq<string>, s: State) {
    && Print(lines, |lines|, s.footprint)
    && (forall name {:trigger Named(lines, |lines|, name)} :: Named(lines, |lines|, name) <==> s.modelName == Some(name))
    && Tidy(s.models)
    && (forall i {:trigger s.models[i]} :: 0 <= i < |s.models| ==> load(s.models[i].name))
    && (forall name, f {:trigger Wants(lines, name, f)} {:trigger Listed(s.models, name, f)} ::
          Listed(s.models, name, f) <==> Wants(lines, name, f))
  }

  lemma LineKeepsMeaning(load: string -> bool, lines: seq<string>, s: State, line: string)
    requires Means(load, lines, s) && ReadLine(load, s, line).Ok?
    ensures Means(load, lines + [line], ReadLine(load, s, line).value)
  {
    var lines', n, s' := lines + [line], |lines|, ReadLine(load, s, line).value;
    PrintNext(lines, line, s'.footprint);
    forall name
      ensures Named(lines', n + 1, name) <==> s'.modelName == Some(name)
    {
      NamedNext(lines, line, name);
    }
    if IsBlank(line) && s.modelName.Some? {
      RecordTidy(s.models, s.modelName.value, s.footprint);
    }
    forall name, f
      ensures Listed(s'.models, name, f) <==> Wants(lines', name, f)
    {
      LineListed(load, lines, s, line, name, f);
    }
  }

  lemma LineListed(load: string -> bool, lines: seq<string>, s: State, line: string, name: string, f: nat)
    requires Means(load, lines, s) && ReadLine(load, s, line).Ok?
    ensures Listed(ReadLine(load, s, line).value.models, name, f) <==> Wants(lines + [line], name, f)
  {
    WantsNext(lines, line, name, f);
    if IsBlank(line) && s.modelName.Some? {
      RecordListed(s.models, s.modelName.value, s.footprint, name, f);
      if Print(lines, |lines|, f) {
        PrintOnce(lines, |lines|, s.footprint, f);
      }
    }
  }

  /** A line is refused exactly when it makes the file unacceptable. */
  lemma LineRefused(load: string -> bool, lines: seq<string>, s: State, line: string)
    requires Means(load, lines, s) && Acceptable(load, lines)
    ensures ReadLine(load, s, line).Ok? <==> Acceptable(load, lines + [line])
  {
    var lines' := lines + [line];
    assert lines'[|lines|] == line;
    if Acceptable(load, lines') {
      assert GoodLine(lines'[|lines|]);
      if IsBlank(line) && s.modelName.Some? {
        var name := s.modelName.value;
        assert Named(lines, |lines|, name);
        WantsNext(lines, line, name, s.footprint);
        assert Wants(lines', name, s.footprint);
      }
    }
    if ReadLine(load, s, line).Ok? {
      forall name, f | Wants(lines', name, f)
        ensures load(name)
      {
        WantsNext(lines, line, name, f);
        if !Wants(lines, name, f) {
          var i := Find(s.models, name);
          assert i < |s.models| ==> load(s.models[i].name);
        }
      }
    }
  }

  lemma AcceptablePrefix(load: string -> bool, lines: seq<string>, line: string)
    requires Acceptable(load, lines + [line])
    ensures Acceptable(load, lines)
  {
    forall m | 0 <= m < |lines|
      ensures GoodLine(lines[m])
    {
      assert (lines + [line])[m] == lines[m];
    }
    forall name, f | Wants(lines, name, f)
      ensures load(name)
    {
      WantsNext(lines, line, name, f);
      assert Wants(lines + [line], name, f);
    }
  }

  /** For every sequence of lines: the reader accepts it exactly when each line is good and each model that is asked for
      can be loaded; and then it lists each model once, each footprint of it once, and exactly the pairs asked for. */
  lemma {:induction false} ReadFindsWhatIsWanted(load: string -> bool, lines: seq<string>)
    ensures ReadLines(load, lines).Ok? <==> Acceptable(load, lines)
    ensures ReadLines(load, lines).Ok? ==> Means(load, lines, ReadLines(load, lines).value)
  {
    if lines == [] {
      assert Tidy(FRESH.models);
    } else {
      var n := |lines| - 1;
      var first, line := lines[..n], lines[n];
      assert lines == first + [line];
      ReadFindsWhatIsWanted(load, first);
      if ReadLines(load, first).Ok? {
        var s := ReadLines(load, first).value;
        LineRefused(load, first, s, line);
        if ReadLine(load, s, line).Ok? {
          LineKeepsMeaning(load, first, s, line);
        }
      } else if Acceptable(load, lines) {
        AcceptablePrefix(load, first, line);
      }
    }
  }
}
