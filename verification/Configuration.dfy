/**
 The parser object of namevalueparser.cc, the edits of namevalueconfig.cc and the access modes of
 config.cc, over a disk that is a map from file names to contents.
 */
module Configuration {
  import opened Bytes
  import opened NameValue

  datatype AccessMode = Read | Create | ReadWrite

  datatype Error =
    | OpenFail | OpenFailWrite | BadConfigFile
    | CannotLoadWhenCreate | CannotApplyWhenRead | CannotCancelWhenRead
    | CannotOverrideWhenRead | CannotOverrideSameContents

  /** Normal return, or the exception thrown. */
  datatype Outcome = Done | Threw(error: Error)

  // ----- Edits -----

  /** The text part of a line, which is all that the search of SetVariableValue compares. */
  function TextOf(line: Line): string {
    match line
    case NameLine(name) => name
    case Comment(text) => text
    case Empty => ""
  }

  predicate Mentions(lines: seq<Line>, name: string) {
    exists i :: 0 <= i < |lines| && TextOf(lines[i]) == name
  }

  function SetIn(d: Data, name: string, value: string): Data {
    Data(d.nv[name := value], if Mentions(d.lines, name) then d.lines else d.lines + [NameLine(name)])
  }

  /** The lines without every line of this name. */
  function Without(lines: seq<Line>, name: string): seq<Line> {
    if lines == [] then []
    else
      var last := |lines| - 1;
      Without(lines[..last], name) + if lines[last] == NameLine(name) then [] else [lines[last]]
  }

  function RemoveFrom(d: Data, name: string): Data {
    Data(map n | n in d.nv && n != name :: d.nv[n], Without(d.lines, name))
  }

  lemma {:induction false} WithoutHas(lines: seq<Line>, name: string, line: Line)
    ensures line in Without(lines, name) <==> line in lines && line != NameLine(name)
  {
    if lines != [] {
      WithoutHas(lines[..|lines| - 1], name, line);
    }
  }

  /** What a variable is read as: a name that is not there has the empty value. */
  function ValueOf(d: Data, name: string): string {
    if name in d.nv then d.nv[name] else ""
  }

  /** What is set is read, and nothing else is read differently; no line is lost or moved. */
  lemma SetIsRead(d: Data, name: string, value: string, other: string)
    ensures
      var after := SetIn(d, name, value);
      && ValueOf(after, other) == (if other == name then value else ValueOf(d, other))
      && after.nv.Keys == d.nv.Keys + {name}
      && (after.lines == d.lines || after.lines == d.lines + [NameLine(name)])
      && Mentions(after.lines, name)
  {
    var after := SetIn(d, name, value);
    if !Mentions(d.lines, name) {
      assert TextOf(after.lines[|d.lines|]) == name;
    }
  }

  /** These lines are those at the given places, in their order, and at all other places is this name. */
  ghost predicate KeptBut(name: string, before: seq<Line>, after: seq<Line>, places: seq<nat>) {
    && |places| == |after| && NameLine(name) !in after
    && (forall i :: 0 <= i < |places| ==> places[i] < |before| && after[i] == before[places[i]])
    && (forall i, j :: 0 <= i < j < |places| ==> places[i] < places[j])
    && (forall k :: 0 <= k < |before| && k !in places ==> before[k] == NameLine(name))
  }

  lemma OneDropped(name: string, before: seq<Line>, after: seq<Line>, places: seq<nat>)
    requires KeptBut(name, before, after, places)
    ensures KeptBut(name, before + [NameLine(name)], after, places)
  {
  }

  lemma OneKept(name: string, before: seq<Line>, after: seq<Line>, places: seq<nat>, line: Line)
    requires KeptBut(name, before, after, places) && line != NameLine(name)
    ensures KeptBut(name, before + [line], after + [line], places + [|before|])
  {
    var (lines, longer) := (before + [line], places + [|before|]);
    assert longer[|places|] == |before|;
    forall k | 0 <= k < |lines| && k !in longer
      ensures lines[k] == NameLine(name)
    {
      assert k < |before| && k !in places;
    }
  }

  lemma {:induction false} WithoutKeeps(lines: seq<Line>, name: string) returns (places: seq<nat>)
    ensures KeptBut(name, lines, Without(lines, name), places)
  {
    hide KeptBut;
    if lines == [] {
      places := [];
      NothingKept(name);
    } else {
      var before, line := lines[..|lines| - 1], lines[|lines| - 1];
      places := WithoutKeeps(before, name);
      assert lines == before + [line];
      if line == NameLine(name) {
        OneDropped(name, before, Without(before, name), places);
        assert Without(before, name) + [] == Without(before, name);
      } else {
        OneKept(name, before, Without(before, name), places, line);
        places := places + [|before|];
      }
    }
  }

  lemma NothingKept(name: string)
    ensures KeptBut(name, [], [], [])
  {
  }

  /** What is removed is not read any more, and nothing else is read differently. */
  lemma RemovedIsGone(d: Data, name: string, other: string) returns (places: seq<nat>)
    ensures
      var after := RemoveFrom(d, name);
      && name !in after.nv && ValueOf(after, name) == ""
      && after.nv.Keys == d.nv.Keys - {name}
      && (other != name ==> ValueOf(after, other) == ValueOf(d, other))
      && KeptBut(name, d.lines, after.lines, places)
  {
    places := WithoutKeeps(d.lines, name);
  }

  /** Some line that is not a name line has this text. */
  predicate Disguised(d: Data, name: string) {
    NameLine(name) !in d.lines && Mentions(d.lines, name)
  }

  /** Setting keeps names and map in step exactly if no comment and no empty line is taken for the name. */
  lemma SetStaysSynced(d: Data, name: string, value: string)
    requires Synced(d)
    ensures Synced(SetIn(d, name, value)) <==> !Disguised(d, name)
  {
    var after := SetIn(d, name, value);
    forall i | 0 <= i < |d.lines| && d.lines[i] == NameLine(name)
      ensures Mentions(d.lines, name)
    {
      assert TextOf(d.lines[i]) == name;
    }
    forall n
      ensures NameLine(n) in after.lines <==>
              NameLine(n) in d.lines || (!Mentions(d.lines, name) && n == name)
    {
    }
    if Disguised(d, name) {
      assert name in after.nv && NameLine(name) !in after.lines;
    }
  }

  lemma RemoveStaysSynced(d: Data, name: string)
    requires Synced(d)
    ensures Synced(RemoveFrom(d, name))
  {
    forall n
      ensures n in RemoveFrom(d, name).nv <==> NameLine(n) in RemoveFrom(d, name).lines
    {
      WithoutHas(d.lines, name, NameLine(n));
    }
  }

  /** The empty name is taken for an empty line, and its value is never written. */
  lemma EmptyNameIsLost(value: string, stamp: string)
    ensures
      var d := SetIn(Data(map[], [Empty]), "", value);
      !Synced(d) && Print(d, stamp) == "\n"
  {
    var d := SetIn(Data(map[], [Empty]), "", value);
    assert TextOf([Empty][0]) == "";
    assert d.lines == [Empty] && "" in d.nv && NameLine("") !in d.lines;
    assert PrintedLines(d, stamp, 0) == [];
    assert PrintedLines(d, stamp, 1) == [""];
    assert Unlines([""], 1) == "";
  }

  datatype Edit = Set(name: string, value: string) | Remove(name: string)

  function Edited(d: Data, edit: Edit): Data {
    match edit
    case Set(name, value) => SetIn(d, name, value)
    case Remove(name) => RemoveFrom(d, name)
  }

  /** Names and values that survive being written. */
  predicate EditFits(edit: Edit) {
    edit.Set? ==> LineFits(NameLine(edit.name)) && IsTrimmed(edit.value) && '\n' !in edit.value
  }

  lemma {:induction false} WithoutFits(lines: seq<Line>, name: string)
    requires forall i :: 0 <= i < |lines| ==> LineFits(lines[i])
    ensures forall i :: 0 <= i < |Without(lines, name)| ==> LineFits(Without(lines, name)[i])
  {
    if lines != [] {
      WithoutFits(lines[..|lines| - 1], name);
    }
  }

  /** Fitting edits keep well-formed data well-formed and in step, so that an apply loses nothing. */
  lemma EditStaysWellFormed(d: Data, edit: Edit)
    requires WellFormed(d) && Synced(d) && EditFits(edit)
    ensures WellFormed(Edited(d, edit)) && Synced(Edited(d, edit))
  {
    hide IsName, IsTrimmed;
    match edit
    case Set(name, value) =>
      if Disguised(d, name) {
        var i :| 0 <= i < |d.lines| && TextOf(d.lines[i]) == name;
        assert d.lines[i] in d.lines && LineFits(d.lines[i]);
        NameIsNotEmpty(name);
        assert false;
      }
      SetStaysSynced(d, name, value);
    case Remove(name) =>
      RemoveStaysSynced(d, name);
      WithoutFits(d.lines, name);
  }

  lemma NameIsNotEmpty(name: string)
    requires IsName(name)
    ensures name != ""
  {
  }

  function EditedAll(d: Data, edits: seq<Edit>): Data {
    if edits == [] then d else Edited(EditedAll(d, edits[..|edits| - 1]), edits[|edits| - 1])
  }

  lemma {:induction false} EditsStayWellFormed(d: Data, edits: seq<Edit>)
    requires WellFormed(d) && Synced(d) && forall i :: 0 <= i < |edits| ==> EditFits(edits[i])
    ensures WellFormed(EditedAll(d, edits)) && Synced(EditedAll(d, edits))
  {
    hide WellFormed, Synced, Edited, EditFits;
    if edits != [] {
      EditsStayWellFormed(d, edits[..|edits| - 1]);
      EditStaysWellFormed(EditedAll(d, edits[..|edits| - 1]), edits[|edits| - 1]);
    }
  }

  /** A value whose name is on no line does not change what is printed. */
  lemma {:induction false} PrintIgnores(d: Data, name: string, value: string, stamp: string, n: nat)
    requires n <= |d.lines| && NameLine(name) !in d.lines
    ensures PrintedLines(Data(d.nv[name := value], d.lines), stamp, n) == PrintedLines(d, stamp, n)
  {
    hide IsGenerated;
    if n > 0 {
      PrintIgnores(d, name, value, stamp, n - 1);
      assert d.lines[n - 1] in d.lines;
    }
  }

  /** A name that only a comment or an empty line has as its text is not written, so its value is lost. */
  lemma DisguisedIsLost(d: Data, name: string, value: string, stamp: string)
    requires WellFormed(d) && Synced(d) && Disguised(d, name) && '\n' !in stamp
    ensures name !in Parse(ReadAll, Print(SetIn(d, name, value), stamp)).data.nv
  {
    hide WellFormed, Parse, StampedLines, PrintedLines;
    PrintIgnores(d, name, value, stamp, |d.lines|);
    RoundTrip(d, stamp);
  }

  /** What can be read back at all is a name and a trimmed value. */
  lemma ReadBackFits(file: string, name: string)
    requires name in Parse(ReadAll, file).data.nv
    ensures IsName(name)
    ensures var value := Parse(ReadAll, file).data.nv[name]; IsTrimmed(value) && '\n' !in value
  {
    hide Parse, IsName, IsTrimmed;
    ParsedIsParsable(file);
    var d := Parse(ReadAll, file).data;
    assert NameLine(name) in d.lines;
  }

  /** A name that looks like a comment is written as one. */
  lemma CommentNameIsLost(d: Data, name: string, value: string, stamp: string)
    requires WellFormed(d) && Synced(d) && !Disguised(d, name) && '\n' !in stamp
    requires IsName(name) && LooksLikeComment(name) && IsTrimmed(value) && '\n' !in value
    ensures name !in Parse(ReadAll, Print(SetIn(d, name, value), stamp)).data.nv
  {
    hide Parse, Print, IsName, IsTrimmed, Synced;
    SetStaysSynced(d, name, value);
    PrintedHidesNothing(SetIn(d, name, value), stamp);
  }

  /**
   Set one value in well-formed data, write and read them again: the same map is back exactly if the name is
   trimmed, not empty, free of separators and newlines and does not look like a comment, and the value is
   trimmed and has no newline.
   */
  lemma SetSurvivesExactly(d: Data, name: string, value: string, stamp: string)
    requires WellFormed(d) && Synced(d) && '\n' !in stamp
    ensures Parse(ReadAll, Print(SetIn(d, name, value), stamp)).data.nv == SetIn(d, name, value).nv
       <==> EditFits(Set(name, value))
  {
    hide Parse, Print, WellFormed, Synced, IsName, IsTrimmed, Disguised;
    var file := Print(SetIn(d, name, value), stamp);
    if EditFits(Set(name, value)) {
      EditStaysWellFormed(d, Set(name, value));
      RoundTrip(SetIn(d, name, value), stamp);
    } else if Parse(ReadAll, file).data.nv == SetIn(d, name, value).nv {
      ReadBackFits(file, name);
      NameIsNotEmpty(name);
      if Disguised(d, name) {
        DisguisedIsLost(d, name, value, stamp);
      } else {
        CommentNameIsLost(d, name, value, stamp);
      }
      assert false;
    }
  }

  /** A name that was removed is not there either when the data were written and read again. */
  lemma RemovedStaysAway(d: Data, name: string, other: string, stamp: string)
    requires WellFormed(d) && Synced(d) && '\n' !in stamp
    ensures
      var again := Parse(ReadAll, Print(RemoveFrom(d, name), stamp)).data;
      && name !in again.nv && NameLine(name) !in again.lines
      && (other != name ==> ValueOf(again, other) == ValueOf(d, other))
  {
    hide Parse, Print, WellFormed, Synced, KeptBut, StampedLines, RemoveFrom;
    var _ := RemovedIsGone(d, name, other);
    EditStaysWellFormed(d, Remove(name));
    var after := RemoveFrom(d, name);
    RoundTrip(after, stamp);
    SyncedLines(Parse(ReadAll, Print(after, stamp)).data, name);
    ParsedIsParsable(Print(after, stamp));
  }

  lemma SyncedLines(d: Data, name: string)
    ensures Parsable(d) ==> (name in d.nv <==> NameLine(name) in d.lines)
  {
  }

  // ----- The objects -----

  class Disk {
    var files: map<string, string>

    constructor (files: map<string, string>)
      ensures this.files == files
    {
      this.files := files;
    }
  }

  /** NameValueParser. */
  class Parser {
    const mode: Mode
    var nv: map<string, string>
    var lines: seq<Line>

    constructor (mode: Mode)
      ensures this.mode == mode && data() == Data(map[], [])
    {
      this.mode := mode;
      nv, lines := map[], [];
    }

    function data(): Data
      reads this
    {
      Data(nv, lines)
    }

    /** ReadConfigurationData. A bad line ends the reading, and what was read before it stays. */
    method ReadFile(disk: Disk, fileName: string) returns (outcome: Outcome)
      modifies this
      ensures
        if fileName !in disk.files then outcome == Threw(OpenFail) && data() == old(data())
        else
          var loaded := Parse(mode, disk.files[fileName]);
          data() == loaded.data && outcome == if loaded.bad then Threw(BadConfigFile) else Done
    {
      hide Load, LinesFrom, ParseLine, Add, FirstFrom;
      if fileName !in disk.files {
        return Threw(OpenFail);
      }
      var file := disk.files[fileName];
      nv, lines := map[], [];
      var pos, eof := 0, false;
      ghost var done: seq<string>, rest := [], LinesFrom(file, 0);
      ghost var texts := rest;
      LoadNothing(mode, texts);
      while !eof
        invariant pos <= |file| && texts == done + rest
        invariant rest == if eof then [] else LinesFrom(file, pos)
        invariant Load(mode, texts, |done|) == Loaded(data(), false)
        decreases !eof, |file| - pos
      {
        // getline
        var end := FirstFrom(file, pos, '\n');
        var buffer := file[pos..end];
        NextLine(file, pos);
        eof := end == |file|;
        pos := if eof then end else end + 1;
        LoadOne(mode, texts, |done|, buffer);
        rest := if eof then [] else LinesFrom(file, pos);
        Regroup(done, [buffer], rest);
        done := done + [buffer];
        var p := ParseLine(buffer);
        if p.Bad? {
          BadAddsNothing(mode, data());
          Stuck(mode, texts, |done|, |texts|);
          return Threw(BadConfigFile);
        }
        AddLine(p);
      }
      outcome := Done;
    }

    /** AddEmptyLine, AddComment and AddNameValue. */
    method AddLine(p: Parsed)
      modifies this
      ensures data() == Add(mode, old(data()), p)
    {
      match p
      case Blank => if mode == ReadAll { lines := lines + [Empty]; }
      case Remark(text) => if mode == ReadAll { lines := lines + [Comment(text)]; }
      case Pair(name, value) =>
        if mode == ReadAll { lines := lines + [NameLine(name)]; }
        nv := nv[name := value];
      case _ =>
    }

    /** WriteConfigurationData; `order` is the order of the map. */
    method WriteFile(disk: Disk, fileName: string, writable: bool, stamp: string, order: seq<string>)
      returns (outcome: Outcome)
      requires Enumerates(order, nv)
      modifies disk
      ensures
        if !writable then outcome == Threw(OpenFailWrite) && disk.files == old(disk.files)
        else
          outcome == Done &&
          var text := if mode == ReadAll then Print(data(), stamp) else Listing(nv, order);
          disk.files == old(disk.files)[fileName := text]
    {
      if !writable {
        return Threw(OpenFailWrite);
      }
      var texts := [];
      var i := 0;
      if mode == ReadAll {
        while i < |lines|
          invariant i <= |lines| && texts == PrintedLines(data(), stamp, i)
        {
          texts := texts + PrintedLine(nv, lines[i], stamp);
          i := i + 1;
        }
      } else {
        while i < |order|
          invariant i <= |order| && texts == ListedLines(nv, order, i)
        {
          texts := texts + [order[i] + "=" + nv[order[i]], ""];
          i := i + 1;
        }
      }
      disk.files := disk.files[fileName := Unlines(texts, 0)];
      outcome := Done;
    }
  }

  /** Config, with the edits of NameValueConfig. */
  class Config {
    const disk: Disk
    const parser: Parser
    const fileName: string
    const accessMode: AccessMode

    constructor (disk: Disk, fileName: string, accessMode: AccessMode)
      ensures this.disk == disk && this.fileName == fileName && this.accessMode == accessMode
      ensures fresh(parser) && parser.mode == ReadAll && parser.data() == Data(map[], [])
    {
      this.disk, this.fileName, this.accessMode := disk, fileName, accessMode;
      parser := new Parser(ReadAll);
    }

    /** A name that is not there has the empty value. */
    method GetVariableValue(name: string) returns (value: string)
      ensures value == ValueOf(parser.data(), name)
    {
      value := if name in parser.nv then parser.nv[name] else "";
    }

    method SetVariableValue(name: string, value: string)
      modifies parser
      ensures parser.data() == SetIn(old(parser.data()), name, value)
      ensures name in parser.nv && parser.nv[name] == value
      ensures forall n :: n in old(parser.nv) && n != name ==> n in parser.nv && parser.nv[n] == old(parser.nv)[n]
      ensures forall n :: n in parser.nv && n != name ==> n in old(parser.nv)
    {
      var found, i := false, 0;
      while i < |parser.lines| && !found
        invariant i <= |parser.lines|
        invariant found ==> Mentions(parser.lines, name)
        invariant !found ==> forall k :: 0 <= k < i ==> TextOf(parser.lines[k]) != name
      {
        found := TextOf(parser.lines[i]) == name;
        i := i + 1;
      }
      if !found {
        parser.lines := parser.lines + [NameLine(name)];
      }
      parser.nv := parser.nv[name := value];
    }

    /** `places` are those of the lines that stay. */
    method RemoveVariable(name: string) returns (ghost places: seq<nat>)
      modifies parser
      ensures parser.data() == RemoveFrom(old(parser.data()), name)
      ensures name !in parser.nv && NameLine(name) !in parser.lines
      ensures forall n :: n in old(parser.nv) && n != name ==> n in parser.nv && parser.nv[n] == old(parser.nv)[n]
      ensures forall n :: n in parser.nv ==> n in old(parser.nv)
      ensures KeptBut(name, old(parser.lines), parser.lines, places)
    {
      places := WithoutKeeps(parser.lines, name);
      var kept, i := [], 0;
      while i < |parser.lines|
        invariant i <= |parser.lines| && kept == Without(parser.lines[..i], name)
      {
        assert parser.lines[..i + 1][..i] == parser.lines[..i];
        if parser.lines[i] != NameLine(name) {
          kept := kept + [parser.lines[i]];
        }
        i := i + 1;
      }
      assert parser.lines[..i] == parser.lines;
      parser.lines := kept;
      parser.nv := map n | n in parser.nv && n != name :: parser.nv[n];
    }

    method LoadConfiguration() returns (outcome: Outcome)
      modifies parser
      ensures accessMode == Create ==> outcome == Threw(CannotLoadWhenCreate)
      ensures accessMode != Create && fileName !in disk.files ==> outcome == Threw(OpenFail)
      ensures accessMode == Create || fileName !in disk.files ==> parser.data() == old(parser.data())
      ensures accessMode != Create && fileName in disk.files ==>
                var loaded := Parse(parser.mode, disk.files[fileName]);
                parser.data() == loaded.data && outcome == if loaded.bad then Threw(BadConfigFile) else Done
    {
      if accessMode == Create {
        return Threw(CannotLoadWhenCreate);
      }
      outcome := parser.ReadFile(disk, fileName);
    }

    method ApplyConfiguration(writable: bool, stamp: string, order: seq<string>) returns (outcome: Outcome)
      requires Enumerates(order, parser.nv)
      modifies disk
      ensures accessMode == Read ==> outcome == Threw(CannotApplyWhenRead)
      ensures accessMode != Read ==> outcome == if writable then Done else Threw(OpenFailWrite)
      ensures outcome != Done ==> disk.files == old(disk.files)
      ensures outcome == Done && parser.mode == ReadAll ==>
                disk.files == old(disk.files)[fileName := Print(parser.data(), stamp)]
    {
      if accessMode == Read {
        return Threw(CannotApplyWhenRead);
      }
      outcome := parser.WriteFile(disk, fileName, writable, stamp, order);
    }

    /** Cancelling is loading again, so that it fails in mode Create as well. */
    method CancelConfiguration() returns (outcome: Outcome)
      modifies parser
      ensures accessMode == Read ==> outcome == Threw(CannotCancelWhenRead)
      ensures accessMode == Create ==> outcome == Threw(CannotLoadWhenCreate)
      ensures accessMode != ReadWrite || fileName !in disk.files ==> parser.data() == old(parser.data())
      ensures accessMode == ReadWrite && fileName !in disk.files ==> outcome == Threw(OpenFail)
      ensures accessMode == ReadWrite && fileName in disk.files ==>
                var loaded := Parse(parser.mode, disk.files[fileName]);
                parser.data() == loaded.data && outcome == if loaded.bad then Threw(BadConfigFile) else Done
    {
      if accessMode == Read {
        return Threw(CannotCancelWhenRead);
      }
      outcome := LoadConfiguration();
    }

    /** Reads another file and writes this one; if the other file is refused, this one is not touched. */
    method OverrideConfiguration(other: string, writable: bool, stamp: string) returns (outcome: Outcome)
      requires parser.mode == ReadAll
      modifies parser, disk
      ensures other == fileName ==> outcome == Threw(CannotOverrideSameContents)
      ensures other != fileName && accessMode == Read ==> outcome == Threw(CannotOverrideWhenRead)
      ensures other != fileName && accessMode != Read && other !in old(disk.files) ==> outcome == Threw(OpenFail)
      ensures other == fileName || accessMode == Read || other !in old(disk.files) ==>
                parser.data() == old(parser.data())
      ensures other != fileName && accessMode != Read && other in old(disk.files) ==>
                var loaded := Parse(ReadAll, old(disk.files[other]));
                && parser.data() == loaded.data
                && outcome == (if loaded.bad then Threw(BadConfigFile)
                               else if writable then Done
                               else Threw(OpenFailWrite))
                && (outcome == Done ==> disk.files == old(disk.files)[fileName := Print(loaded.data, stamp)])
      ensures outcome != Done ==> disk.files == old(disk.files)
    {
      if other == fileName {
        return Threw(CannotOverrideSameContents);
      }
      if accessMode == Read {
        return Threw(CannotOverrideWhenRead);
      }
      outcome := parser.ReadFile(disk, other);
      if outcome == Done {
        var order := NamesOf(parser.nv);
        outcome := parser.WriteFile(disk, fileName, writable, stamp, order);
      }
    }

    /** Apply, then any edits, then cancel: exactly the map that was applied is back. */
    method ApplyEditCancel(stamp: string, order: seq<string>, edits: seq<Edit>) returns (outcome: Outcome)
      requires accessMode == ReadWrite && parser.mode == ReadAll && Enumerates(order, parser.nv)
      requires WellFormed(parser.data()) && Synced(parser.data()) && '\n' !in stamp
      modifies parser, disk
      ensures outcome == Done && parser.nv == old(parser.nv)
      ensures parser.lines == StampedLines(old(parser.lines), stamp) + [Empty]
    {
      hide Print, Parse, WellFormed, Synced, StampedLines;
      outcome := ApplyConfiguration(true, stamp, order);
      RoundTrip(parser.data(), stamp);
      ghost var files := disk.files;
      var i := 0;
      while i < |edits|
        invariant disk.files == files
        modifies parser
      {
        match edits[i] {
          case Set(name, value) => SetVariableValue(name, value);
          case Remove(name) => var _ := RemoveVariable(name);
        }
        i := i + 1;
      }
      outcome := CancelConfiguration();
    }
  }

  /** The names of a map in some order. */
  method NamesOf(nv: map<string, string>) returns (order: seq<string>)
    ensures Enumerates(order, nv)
    ensures forall i, j :: 0 <= i < j < |order| ==> order[i] != order[j]
  {
    order := [];
    var rest := nv.Keys;
    while rest != {}
      invariant forall name :: name in nv <==> name in rest || name in order
      invariant forall name :: name in order ==> name !in rest
      invariant forall i, j :: 0 <= i < j < |order| ==> order[i] != order[j]
      decreases |rest|
    {
      var name :| name in rest;
      rest := rest - {name};
      order := order + [name];
    }
  }
}
