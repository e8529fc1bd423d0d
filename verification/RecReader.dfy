/** Reading a rec file, tools/starpu_perfmodel_recdump.c: which footprints of which models the file asks for. */
module RecReader {
  import opened Wrappers
  import opened RecText

  datatype Result<+T> = Ok(value: T) | Failed(fault: Fault)

  /** Why the tool gives up. `NamelessModel`: a last line that is just "Model: " leaves no character to drop. */
  datatype Fault = VeryLongLine | OddLine | NotLoaded(name: string) | NamelessModel

  // ---------------------------------------------------------------- footprint lists

  /** `struct _footprint_list`. */
  datatype Footprints = Nil | Cons(footprint: nat, next: Footprints)

  function Items(list: Footprints): (fs: seq<nat>) {
    match list
    case Nil => []
    case Cons(f, next) => [f] + Items(next)
  }

  method AddFootprint(list: Footprints, footprint: nat) returns (res: Footprints)
    ensures footprint in Items(list) ==> res == list
    ensures footprint !in Items(list) ==> Items(res) == [footprint] + Items(list)
    ensures res == WithFootprint(list, footprint)
  {
    var l := list;
    while l.Cons?
      invariant footprint in Items(list) <==> footprint in Items(l)
      decreases l
    {
      if l.footprint == footprint {
        assert Items(l)[0] == footprint;
        return list;
      }
      l := l.next;
    }
    return Cons(footprint, list);
  }

  function WithFootprint(list: Footprints, footprint: nat): (res: Footprints) {
    if footprint in Items(list) then list else Cons(footprint, list)
  }

  // ---------------------------------------------------------------- the reader

  /** An entry of the hash table `models`, which is iterated in insertion order. */
  datatype Model = Model(name: string, footprints: Footprints)

  function Find(models: seq<Model>, name: string): (i: nat)
    ensures i <= |models|
    ensures i < |models| ==> models[i].name == name
    ensures forall j {:trigger models[j]} :: 0 <= j < i ==> models[j].name != name
  {
    if models == [] || models[0].name == name then 0 else 1 + Find(models[1..], name)
  }

  /** One record: the model with this name wants this footprint. */
  function WithRecord(models: seq<Model>, name: string, footprint: nat): (models': seq<Model>) {
    var i := Find(models, name);
    if i < |models| then models[i := Model(name, WithFootprint(models[i].footprints, footprint))]
    else models + [Model(name, Cons(footprint, Nil))]
  }

  datatype State = State(footprint: nat, modelName: Option<string>, models: seq<Model>)

  const FRESH: State := State(0, None, [])

  predicate IsBlank(line: string) {
    line != "" && line[0] == '\n'
  }

  predicate IsFootprint(line: string) {
    !IsBlank(line) && "Footprint: " <= line
  }

  predicate IsModel(line: string) {
    !IsBlank(line) && "Model: " <= line
  }

  function FootprintOf(line: string): (f: nat)
    requires IsFootprint(line)
    ensures f < UINT32
  {
    StrToUL(line[|"Footprint: "|..]) % UINT32
  }

  /** The rest of the line without its last character, which is taken to be the newline. */
  function NameOf(line: string): (name: string)
    requires IsModel(line) && line != "Model: "
  {
    line[|"Model: "|..|line| - 1]
  }

  /** One turn of the loop. `load` says which models `starpu_perfmodel_load_symbol` finds. */
  function ReadLine(load: string -> bool, s: State, line: string): (r: Result<State>) {
    if |line| == LINE_MAX then Failed(VeryLongLine)
    else if IsBlank(line) then
      match s.modelName
      case None => Ok(s)
      case Some(name) =>
        if Find(s.models, name) < |s.models| || load(name) then
          Ok(State(s.footprint, None, WithRecord(s.models, name, s.footprint)))
        else Failed(NotLoaded(name))
    else if ':' !in line then Failed(OddLine)
    else if IsFootprint(line) then Ok(s.(footprint := FootprintOf(line)))
    else if IsModel(line) then
      if line == "Model: " then Failed(NamelessModel) else Ok(s.(modelName := Some(NameOf(line))))
    else Ok(s)
  }

  function ReadLines(load: string -> bool, lines: seq<string>): (r: Result<State>) {
    if lines == [] then Ok(FRESH)
    else
      match ReadLines(load, lines[..|lines| - 1])
      case Failed(fault) => Failed(fault)
      case Ok(s) => ReadLine(load, s, lines[|lines| - 1])
  }

  function CStrings(chunks: seq<string>): (lines: seq<string>)
    ensures |lines| == |chunks|
    ensures forall i :: 0 <= i < |chunks| ==> lines[i] == CString(chunks[i])
  {
    seq(|chunks|, i requires 0 <= i < |chunks| => CString(chunks[i]))
  }

  function ReadText(load: string -> bool, text: string): (r: Result<State>) {
    ReadLines(load, CStrings(Chunks(text)))
  }

  class Reader {
    var footprint: nat
    var modelName: Option<string>
    var models: seq<Model>

    ghost function Current(): (s: State)
      reads this
    {
      State(footprint, modelName, models)
    }

    constructor ()
      ensures Current() == FRESH
    {
      footprint := 0;
      modelName := None;
      models := [];
    }

    method EndOfTask(load: string -> bool, name: string) returns (fault: Option<Fault>)
      requires modelName == Some(name)
      modifies this
      ensures match ReadLine(load, old(Current()), "\n")
              case Ok(s) => fault == None && Current() == s
              case Failed(f) => fault == Some(f)
    {
      var i := Find(models, name);
      if i == |models| {
        if !load(name) {
          return Some(NotLoaded(name));
        }
        models := models + [Model(name, Nil)];
      }
      var list := AddFootprint(models[i].footprints, footprint);
      models := models[i := Model(name, list)];
      modelName := None;
      return None;
    }

    method Line(load: string -> bool, line: string) returns (fault: Option<Fault>)
      modifies this
      ensures match ReadLine(load, old(Current()), line)
              case Ok(s) => fault == None && Current() == s
              case Failed(f) => fault == Some(f)
    {
      fault := None;
      if |line| == LINE_MAX {
        return Some(VeryLongLine);
      }
      if line != "" && line[0] == '\n' {
        if modelName.Some? {
          fault := EndOfTask(load, modelName.value);
        }
        return;
      }
      if ':' !in line {
        return Some(OddLine);
      }
      if "Footprint: " <= line {
        footprint := StrToUL(line[|"Footprint: "|..]) % UINT32;
      } else if "Model: " <= line {
        var name := line[|"Model: "|..];
        if name == "" {
          assert line == "Model: ";
          return Some(NamelessModel);
        }
        assert name[..|name| - 1] == NameOf(line);
        modelName := Some(name[..|name| - 1]);
      }
    }

    /** The whole loop over the file. */
    method File(load: string -> bool, text: string) returns (fault: Option<Fault>)
      requires Current() == FRESH
      modifies this
      ensures match ReadText(load, text)
              case Ok(s) => fault == None && Current() == s
              case Failed(f) => fault == Some(f)
    {
      var pos := 0;
      ghost var lines: seq<string> := [];
      while pos < |text|
        invariant pos <= |text|
        invariant ReadSofar(load, text, pos, lines, Current())
      {
        var next := ReadChunk(text, pos);
        ReadOn(load, text, pos, next, lines, Current());
        fault := Line(load, CString(text[pos..next]));
        if fault.Some? {
          return;
        }
        lines, pos := lines + [text[pos..next]], next;
      }
      AllRead(load, text, lines, Current());
      return None;
    }
  }

  /** The first lines of the text have been read up to position pos, and led to state s. */
  ghost predicate ReadSofar(load: string -> bool, text: string, pos: nat, lines: seq<string>, s: State) {
    && pos <= |text| && Chunks(text) == lines + Chunks(text[pos..])
    && ReadLines(load, CStrings(lines)) == Ok(s)
  }

  /** One more chunk: either the reader goes on, or its fault is that of the whole text. */
  lemma ReadOn(load: string -> bool, text: string, pos: nat, next: nat, lines: seq<string>, s: State)
    requires pos < next <= |text| && IsChunk(text[pos..], next - pos) && ReadSofar(load, text, pos, lines, s)
    ensures var r := ReadLine(load, s, CString(text[pos..next]));
      if r.Ok? then ReadSofar(load, text, next, lines + [text[pos..next]], r.value) else ReadText(load, text) == r
  {
    var chunk := text[pos..next];
    SliceOfSlice(text, pos, next);
    NextChunk(Chunks(text), lines, text[pos..], next - pos);
    ReadNext(load, lines, chunk);
    if ReadLine(load, s, CString(chunk)).Failed? {
      FaultStays(load, lines + [chunk], Chunks(text));
    }
  }

  lemma AllRead(load: string -> bool, text: string, lines: seq<string>, s: State)
    requires ReadSofar(load, text, |text|, lines, s)
    ensures ReadText(load, text) == Ok(s)
  {
    assert text[|text|..] == "" && lines + [] == lines;
  }

  lemma NextChunk(chunks: seq<string>, lines: seq<string>, rest: string, n: nat)
    requires chunks == lines + Chunks(rest) && IsChunk(rest, n)
    ensures chunks == (lines + [rest[..n]]) + Chunks(rest[n..])
  {
    FirstChunk(rest, n);
  }

  lemma SliceOfSlice(text: string, pos: nat, next: nat)
    requires pos <= next <= |text|
    ensures text[pos..][..next - pos] == text[pos..next] && text[pos..][next - pos..] == text[next..]
  {
  }

  lemma ReadNext(load: string -> bool, chunks: seq<string>, chunk: string)
    ensures ReadLines(load, CStrings(chunks + [chunk])) ==
            match ReadLines(load, CStrings(chunks))
            case Failed(fault) => Failed(fault)
            case Ok(s) => ReadLine(load, s, CString(chunk))
  {
    assert CStrings(chunks + [chunk])[..|chunks|] == CStrings(chunks);
  }

  /** The first fault decides. */
  lemma {:induction false} FaultStays(load: string -> bool, first: seq<string>, all: seq<string>)
    requires first <= all && ReadLines(load, CStrings(first)).Failed?
    ensures ReadLines(load, CStrings(all)) == ReadLines(load, CStrings(first))
    decreases |all|
  {
    if |first| == |all| {
      assert first == all;
    } else {
      FaultStays(load, first, all[..|all| - 1]);
      assert all == all[..|all| - 1] + [all[|all| - 1]];
      ReadNext(load, all[..|all| - 1], all[|all| - 1]);
    }
  }
}
