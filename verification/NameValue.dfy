/**
 The NAME=VALUE files of namevalueparser.cc: an ordered list of lines and a map of values, read from and
 printed to text. Lines are shorter than 2048 characters and contain no NUL.
 */
module NameValue {
  import opened Bytes

  const SEPARATOR := '='
  const COMMENT_START := '#'
  const GENERATED := "# Generated on: "

  datatype Mode = ReadAll | ReadNameValue

  datatype Line = NameLine(name: string) | Comment(text: string) | Empty

  datatype Data = Data(nv: map<string, string>, lines: seq<Line>)

  // ----- Searching in text -----

  /** The first position from i on without this character, or the end. */
  function Skip(s: string, i: nat, c: char): (k: nat)
    requires i <= |s|
    ensures i <= k <= |s| && (k < |s| ==> s[k] != c)
    ensures forall j :: i <= j < k ==> s[j] == c
    decreases |s| - i
  {
    if i == |s| || s[i] != c then i else Skip(s, i + 1, c)
  }

  predicate IsBlank(c: char) {
    c == ' ' || c == '\t'
  }

  function FirstNonBlank(s: string, i: nat): (k: nat)
    requires i <= |s|
    ensures i <= k <= |s| && (k < |s| ==> !IsBlank(s[k]))
    ensures forall j :: i <= j < k ==> IsBlank(s[j])
    decreases |s| - i
  {
    if i == |s| || !IsBlank(s[i]) then i else FirstNonBlank(s, i + 1)
  }

  /** One more than the position of the last character that is not blank before position n. */
  function LastNonBlank(s: string, n: nat): (k: nat)
    requires n <= |s|
    ensures k <= n && (k > 0 ==> !IsBlank(s[k - 1]))
    ensures forall j :: k <= j < n ==> IsBlank(s[j])
  {
    if n == 0 || !IsBlank(s[n - 1]) then n else LastNonBlank(s, n - 1)
  }

  predicate IsTrimmed(s: string) {
    s != "" ==> !IsBlank(s[0]) && !IsBlank(s[|s| - 1])
  }

  function Trim(s: string): (t: string)
    ensures IsTrimmed(t)
    ensures IsTrimmed(s) ==> t == s
  {
    var b := FirstNonBlank(s, 0);
    var e := LastNonBlank(s, |s|);
    if b == |s| then "" else s[b..e]
  }

  /** Trimming takes blanks off both ends, and nothing else. */
  lemma TrimTakesBlanks(s: string) returns (before: string, after: string)
    ensures s == before + Trim(s) + after
    ensures forall c :: c in before || c in after ==> IsBlank(c)
  {
    var b := FirstNonBlank(s, 0);
    if b == |s| {
      before, after := s, "";
    } else {
      before, after := s[..b], s[LastNonBlank(s, |s|)..];
    }
  }

  // ----- One line -----

  datatype Parsed = Blank | Remark(text: string) | Pair(name: string, value: string) | Ignored | Bad

  /** What the body of the reading loop makes of a line. */
  function ParseLine(text: string): Parsed {
    var b := Skip(text, 0, ' ');
    if b == |text| then Blank
    else if text[b] == COMMENT_START then Remark(text[b..])
    else
      var t := Skip(text, b, SEPARATOR);
      if t == |text| then Bad
      else
        var u := FirstFrom(text, t, SEPARATOR);
        var name := Trim(text[t..u]);
        if name == "" then Ignored else Pair(name, Trim(if u < |text| then text[u + 1..] else ""))
  }

  /** Names that can be told from the rest of a line. */
  predicate IsName(name: string) {
    name != "" && IsTrimmed(name) && SEPARATOR !in name && '\n' !in name
  }

  /** Names, comments and values as the parser makes them. */
  lemma ParsedShape(text: string)
    requires '\n' !in text
    ensures
      match ParseLine(text)
      case Pair(name, value) => IsName(name) && IsTrimmed(value) && '\n' !in value
      case Remark(comment) => comment != "" && comment[0] == COMMENT_START && '\n' !in comment
      case _ => true
  {
    hide Trim, FirstFrom, Skip, IsTrimmed;
    var b := Skip(text, 0, ' ');
    if b < |text| && text[b] != COMMENT_START {
      var t := Skip(text, b, SEPARATOR);
      if t < |text| {
        var u := FirstFrom(text, t, SEPARATOR);
        TrimmedWithout(text, t, u, SEPARATOR);
        TrimmedWithout(text, t, u, '\n');
        if u < |text| {
          TrimmedWithout(text, u + 1, |text|, '\n');
          assert text[u + 1..|text|] == text[u + 1..];
        } else {
          TrimmedWithout(text, u, u, '\n');
          assert text[u..u] == "";
        }
      }
    }
  }

  lemma TrimmedWithout(text: string, i: nat, j: nat, c: char)
    requires i <= j <= |text| && forall k :: i <= k < j ==> text[k] != c
    ensures c !in Trim(text[i..j])
  {
    var piece := text[i..j];
    var b := FirstNonBlank(piece, 0);
    forall k | 0 <= k < |Trim(piece)|
      ensures Trim(piece)[k] != c
    {
      assert Trim(piece)[k] == piece[b + k] == text[i + b + k];
    }
  }

  /** A printed pair is read back exactly if the name does not look like a comment and the value is trimmed. */
  lemma PairIsReadBack(name: string, value: string)
    requires IsName(name)
    ensures ParseLine(name + "=" + value) == Pair(name, value) <==> name[0] != COMMENT_START && IsTrimmed(value)
  {
    var text := name + "=" + value;
    assert text[0] == name[0] && !IsBlank(name[0]);
    assert text[|name|] == SEPARATOR;
    if name[0] != COMMENT_START {
      assert name[0] in name;
      assert text[0..|name|] == name && text[|name| + 1..] == value;
      FirstFromIs(text, 0, |name|, SEPARATOR);
    }
  }

  lemma CommentIsReadBack(text: string)
    requires text != "" && text[0] == COMMENT_START
    ensures ParseLine(text) == Remark(text)
  {
  }

  /** A line without a separator is a name with an empty value, and only separators are refused. */
  lemma SeparatorIsOptional(name: string)
    requires IsName(name) && name[0] != COMMENT_START
    ensures ParseLine(name) == Pair(name, "")
  {
    assert name[0] in name && name[0..|name|] == name;
    FirstFromIs(name, 0, |name|, SEPARATOR);
  }

  lemma RefusedExactly(text: string)
    ensures ParseLine(text).Bad? <==>
            var b := Skip(text, 0, ' ');
            b < |text| && forall j :: b <= j < |text| ==> text[j] == SEPARATOR
  {
  }

  /** Names that the parser produces but cannot read back. */
  lemma HiddenComments()
    ensures ParseLine("=#x=1") == Pair("#x", "1") && ParseLine("#x=1") == Remark("#x=1")
  {
    var text := "=#x=1";
    assert Skip(text, 0, SEPARATOR) == 1;
    assert FirstFrom(text, 1, SEPARATOR) == 3;
    assert text[1..3] == "#x" && text[4..] == "1";
    assert IsTrimmed("#x") && IsTrimmed("1");
  }

  // ----- Files -----

  /** What getline delivers from position i on: as many lines as newlines, and one more. */
  function LinesFrom(file: string, i: nat): seq<string>
    requires i <= |file|
    decreases |file| - i
  {
    var j := FirstFrom(file, i, '\n');
    if j == |file| then [file[i..]] else [file[i..j]] + LinesFrom(file, j + 1)
  }

  /** Lines printed with a newline after each, from line k on. */
  function Unlines(texts: seq<string>, k: nat): string
    requires k <= |texts|
    decreases |texts| - k
  {
    if k == |texts| then "" else texts[k] + "\n" + Unlines(texts, k + 1)
  }

  lemma NewlineEnds(file: string, i: nat, j: nat, text: string)
    requires i <= j < |file| && file[i..j] == text && '\n' !in text && file[j..j + 1] == "\n"
    ensures FirstFrom(file, i, '\n') == j
  {
    assert file[j] == file[j..j + 1][0];
    FirstFromIs(file, i, j, '\n');
  }

  lemma SplitOne(file: string, i: nat, text: string, rest: string)
    requires i <= |file| && file[i..] == text + "\n" + rest && '\n' !in text
    ensures i + |text| + 1 <= |file| && file[i + |text| + 1..] == rest
    ensures LinesFrom(file, i) == [text] + LinesFrom(file, i + |text| + 1)
  {
    hide FirstFrom, LinesFrom;
    Regroup(text, "\n", rest);
    Pieces(file, i, text, "\n" + rest);
    Pieces(file, i + |text|, "\n", rest);
    NewlineEnds(file, i, i + |text|, text);
    NextLine(file, i);
  }

  lemma SplitLast(file: string)
    ensures LinesFrom(file, |file|) == [""]
  {
    assert file[|file|..] == "";
  }

  lemma {:induction false} SplitPrinted(file: string, i: nat, texts: seq<string>, k: nat)
    requires i <= |file| && k <= |texts| && file[i..] == Unlines(texts, k)
    requires forall j :: 0 <= j < |texts| ==> '\n' !in texts[j]
    ensures LinesFrom(file, i) == texts[k..] + [""]
    decreases |texts| - k
  {
    hide LinesFrom;
    if k == |texts| {
      assert i == |file|;
      SplitLast(file);
    } else {
      SplitOne(file, i, texts[k], Unlines(texts, k + 1));
      SplitPrinted(file, i + |texts[k]| + 1, texts, k + 1);
      assert texts[k..] == [texts[k]] + texts[k + 1..];
    }
  }

  // ----- Reading -----

  datatype Loaded = Loaded(data: Data, bad: bool)

  /** AddEmptyLine, AddComment and AddNameValue. */
  function Add(mode: Mode, d: Data, p: Parsed): Data {
    match p
    case Blank => if mode == ReadAll then d.(lines := d.lines + [Empty]) else d
    case Remark(text) => if mode == ReadAll then d.(lines := d.lines + [Comment(text)]) else d
    case Pair(name, value) =>
      Data(d.nv[name := value], if mode == ReadAll then d.lines + [NameLine(name)] else d.lines)
    case _ => d
  }

  /** The state after the first n lines; nothing more is read after a bad line. */
  function Load(mode: Mode, texts: seq<string>, n: nat): Loaded
    requires n <= |texts|
  {
    if n == 0 then Loaded(Data(map[], []), false)
    else
      var before := Load(mode, texts, n - 1);
      if before.bad then before
      else
        var p := ParseLine(texts[n - 1]);
        Loaded(Add(mode, before.data, p), p.Bad?)
  }

  function Parse(mode: Mode, file: string): Loaded {
    var texts := LinesFrom(file, 0);
    Load(mode, texts, |texts|)
  }

  lemma BadAddsNothing(mode: Mode, d: Data)
    ensures Add(mode, d, Bad) == d
  {
  }

  lemma LoadNothing(mode: Mode, texts: seq<string>)
    ensures Load(mode, texts, 0) == Loaded(Data(map[], []), false)
  {
  }

  lemma LoadOne(mode: Mode, texts: seq<string>, n: nat, text: string)
    requires n < |texts| && texts[n] == text && !Load(mode, texts, n).bad
    ensures
      var p := ParseLine(text);
      Load(mode, texts, n + 1) == Loaded(Add(mode, Load(mode, texts, n).data, p), p.Bad?)
  {
  }

  lemma NextLine(file: string, i: nat)
    requires i <= |file|
    ensures
      var j := FirstFrom(file, i, '\n');
      LinesFrom(file, i) == [file[i..j]] + if j == |file| then [] else LinesFrom(file, j + 1)
  {
    assert file[i..] == file[i..|file|];
  }

  lemma {:induction false} Stuck(mode: Mode, texts: seq<string>, n: nat, m: nat)
    requires n <= m <= |texts| && Load(mode, texts, n).bad
    ensures Load(mode, texts, m) == Load(mode, texts, n)
    decreases m
  {
    hide ParseLine, Add;
    if n < m {
      Stuck(mode, texts, n, m - 1);
    }
  }

  // ----- Printing -----

  predicate IsGenerated(text: string) {
    |GENERATED| <= |text| && text[..|GENERATED|] == GENERATED
  }

  /** A generated-on comment gets a new timestamp when it is written. */
  function Stamped(line: Line, stamp: string): Line {
    if line.Comment? && IsGenerated(line.text) then Comment(GENERATED + stamp) else line
  }

  function StampedLines(lines: seq<Line>, stamp: string): seq<Line> {
    seq(|lines|, i requires 0 <= i < |lines| => Stamped(lines[i], stamp))
  }

  /** The text of a line; a name without a value is not printed. */
  function PrintedLine(nv: map<string, string>, line: Line, stamp: string): seq<string> {
    match Stamped(line, stamp)
    case NameLine(name) => if name in nv then [name + "=" + nv[name]] else []
    case Comment(text) => [text]
    case Empty => [""]
  }

  function PrintedLines(d: Data, stamp: string, n: nat): seq<string>
    requires n <= |d.lines|
  {
    if n == 0 then [] else PrintedLines(d, stamp, n - 1) + PrintedLine(d.nv, d.lines[n - 1], stamp)
  }

  function Print(d: Data, stamp: string): string {
    Unlines(PrintedLines(d, stamp, |d.lines|), 0)
  }

  // ----- Printing and parsing -----

  /** The names on the lines are the names of the map. */
  ghost predicate Synced(d: Data) {
    forall name :: name in d.nv <==> NameLine(name) in d.lines
  }

  predicate LineFits(line: Line) {
    match line
    case NameLine(name) => IsName(name) && name[0] != COMMENT_START
    case Comment(text) => text != "" && text[0] == COMMENT_START && '\n' !in text
    case Empty => true
  }

  ghost predicate WellFormed(d: Data) {
    && (forall i :: 0 <= i < |d.lines| ==> LineFits(d.lines[i]))
    && (forall name :: name in d.nv ==> IsTrimmed(d.nv[name]) && '\n' !in d.nv[name])
  }

  function ParsedLine(nv: map<string, string>, line: Line): Parsed {
    match line
    case NameLine(name) => if name in nv then Pair(name, nv[name]) else Ignored
    case Comment(text) => Remark(text)
    case Empty => Blank
  }

  lemma LineIsReadBack(d: Data, i: nat, stamp: string)
    requires i < |d.lines| && WellFormed(d) && Synced(d) && '\n' !in stamp
    ensures |PrintedLine(d.nv, d.lines[i], stamp)| == 1 && '\n' !in PrintedLine(d.nv, d.lines[i], stamp)[0]
    ensures ParseLine(PrintedLine(d.nv, d.lines[i], stamp)[0]) == ParsedLine(d.nv, Stamped(d.lines[i], stamp))
  {
    hide ParseLine;
    var line := d.lines[i];
    match Stamped(line, stamp)
    case NameLine(name) =>
      assert NameLine(name) in d.lines;
      PairIsReadBack(name, d.nv[name]);
    case Comment(text) => CommentIsReadBack(text);
    case Empty => EmptyIsBlank();
  }

  lemma EmptyIsBlank()
    ensures ParseLine("") == Blank
  {
  }

  lemma {:induction false} PrintedLinesAre(d: Data, stamp: string, n: nat)
    requires n <= |d.lines| && WellFormed(d) && Synced(d) && '\n' !in stamp
    ensures |PrintedLines(d, stamp, n)| == n
    ensures forall i :: 0 <= i < n ==>
              && '\n' !in PrintedLines(d, stamp, n)[i]
              && ParseLine(PrintedLines(d, stamp, n)[i]) == ParsedLine(d.nv, Stamped(d.lines[i], stamp))
  {
    hide ParseLine, PrintedLine, WellFormed, Synced, Stamped;
    if n > 0 {
      PrintedLinesAre(d, stamp, n - 1);
      LineIsReadBack(d, n - 1, stamp);
    }
  }

  /** These data are what these lines of d leave behind. */
  ghost predicate Matches(d: Data, stamp: string, lines: seq<Line>, data: Data) {
    && data.lines == StampedLines(lines, stamp)
    && (forall name :: name in data.nv <==> NameLine(name) in lines)
    && (forall name :: name in data.nv ==> name in d.nv && data.nv[name] == d.nv[name])
  }

  lemma AddsPrinted(d: Data, stamp: string, lines: seq<Line>, line: Line, data: Data)
    requires Matches(d, stamp, lines, data) && (line.NameLine? ==> line.name in d.nv)
    ensures Matches(d, stamp, lines + [line], Add(ReadAll, data, ParsedLine(d.nv, Stamped(line, stamp))))
  {
    hide IsGenerated;
    var after := Add(ReadAll, data, ParsedLine(d.nv, Stamped(line, stamp)));
    assert after.lines == StampedLines(lines + [line], stamp);
    forall name
      ensures name in after.nv <==> NameLine(name) in lines + [line]
    {
      assert NameLine(name) in lines + [line] <==> NameLine(name) in lines || line == NameLine(name);
    }
  }

  /** Reading n printed lines yields those lines, and of the map what belongs to their names. */
  lemma {:induction false} LoadsPrinted(d: Data, stamp: string, texts: seq<string>, n: nat)
    requires n <= |d.lines| <= |texts|
    requires forall name :: NameLine(name) in d.lines ==> name in d.nv
    requires forall i :: 0 <= i < |d.lines| ==> ParseLine(texts[i]) == ParsedLine(d.nv, Stamped(d.lines[i], stamp))
    ensures !Load(ReadAll, texts, n).bad && Matches(d, stamp, d.lines[..n], Load(ReadAll, texts, n).data)
  {
    hide ParseLine, Matches, Stamped, Add;
    if n == 0 {
      NothingMatches(d, stamp);
    } else {
      LoadsPrinted(d, stamp, texts, n - 1);
      var line := d.lines[n - 1];
      assert line in d.lines && d.lines[..n] == d.lines[..n - 1] + [line];
      assert !ParsedLine(d.nv, Stamped(line, stamp)).Bad?;
      AddsPrinted(d, stamp, d.lines[..n - 1], line, Load(ReadAll, texts, n - 1).data);
    }
  }

  lemma NothingMatches(d: Data, stamp: string)
    ensures Matches(d, stamp, [], Data(map[], []))
  {
  }

  /**
   Parsing what is printed gives the same map and the same lines, with new timestamps and one empty line
   more at the end, for synchronized well-formed data. Names may be on several lines, values may hold
   separators.
   */
  lemma RoundTrip(d: Data, stamp: string)
    requires WellFormed(d) && Synced(d) && '\n' !in stamp
    ensures Parse(ReadAll, Print(d, stamp)) == Loaded(Data(d.nv, StampedLines(d.lines, stamp) + [Empty]), false)
  {
    hide ParseLine, WellFormed, Stamped, PrintedLine;
    var n := |d.lines|;
    var printed := PrintedLines(d, stamp, n);
    PrintedLinesAre(d, stamp, n);
    SplitPrinted(Print(d, stamp), 0, printed, 0);
    var texts := LinesFrom(Print(d, stamp), 0);
    assert texts == printed + [""];
    LoadsPrinted(d, stamp, texts, n);
    EmptyIsBlank();
    assert d.lines[..n] == d.lines;
    SameMap(Load(ReadAll, texts, n).data.nv, d.nv);
  }

  lemma SameMap(m: map<string, string>, w: map<string, string>)
    requires (forall k :: k in m <==> k in w) && (forall k :: k in m ==> m[k] == w[k])
    ensures m == w
  {
  }

  // ----- What reading and editing keep -----

  /** What the parser guarantees of a line: its names may look like comments. */
  predicate LineParsed(line: Line) {
    match line
    case NameLine(name) => IsName(name)
    case Comment(text) => text != "" && text[0] == COMMENT_START && '\n' !in text
    case Empty => true
  }

  ghost predicate Parsable(d: Data) {
    && Synced(d)
    && (forall i :: 0 <= i < |d.lines| ==> LineParsed(d.lines[i]))
    && (forall name :: name in d.nv ==> IsTrimmed(d.nv[name]) && '\n' !in d.nv[name])
  }

  lemma AddStaysParsable(d: Data, text: string)
    requires Parsable(d) && '\n' !in text
    ensures Parsable(Add(ReadAll, d, ParseLine(text)))
  {
    hide ParseLine, IsName, IsTrimmed;
    var p := ParseLine(text);
    ParsedShape(text);
    var after := Add(ReadAll, d, p);
    forall name
      ensures name in after.nv <==> NameLine(name) in after.lines
    {
      if p.Pair? {
        assert NameLine(name) in after.lines <==> NameLine(name) in d.lines || NameLine(name) == NameLine(p.name);
      }
    }
  }

  lemma {:induction false} LoadIsParsable(texts: seq<string>, n: nat)
    requires n <= |texts| && forall i :: 0 <= i < |texts| ==> '\n' !in texts[i]
    ensures Parsable(Load(ReadAll, texts, n).data)
  {
    hide Parsable, ParseLine, Add;
    if n == 0 {
      NothingIsParsable();
    } else {
      LoadIsParsable(texts, n - 1);
      AddStaysParsable(Load(ReadAll, texts, n - 1).data, texts[n - 1]);
    }
  }

  lemma NothingIsParsable()
    ensures Parsable(Data(map[], []))
  {
  }

  lemma {:induction false} LinesHaveNoNewline(file: string, i: nat)
    requires i <= |file|
    ensures forall k :: 0 <= k < |LinesFrom(file, i)| ==> '\n' !in LinesFrom(file, i)[k]
    decreases |file| - i
  {
    var j := FirstFrom(file, i, '\n');
    if j < |file| {
      LinesHaveNoNewline(file, j + 1);
    }
  }

  /** After any read, even one that was refused half way, names and map are in step. */
  lemma ParsedIsParsable(file: string)
    ensures Parsable(Parse(ReadAll, file).data)
  {
    hide Parsable;
    LinesHaveNoNewline(file, 0);
    LoadIsParsable(LinesFrom(file, 0), |LinesFrom(file, 0)|);
  }

  predicate LooksLikeComment(name: string) {
    name != "" && name[0] == COMMENT_START
  }

  ghost predicate NoHiddenComments(d: Data) {
    forall name :: name in d.nv ==> !LooksLikeComment(name)
  }

  /** Neither a refused line nor one whose name looks like a comment. */
  predicate Harmless(p: Parsed) {
    !p.Bad? && (p.Pair? ==> !LooksLikeComment(p.name))
  }

  lemma LineIsHarmless(d: Data, i: nat, stamp: string)
    requires i < |d.lines| && Parsable(d) && '\n' !in stamp
    ensures |PrintedLine(d.nv, d.lines[i], stamp)| == 1 && '\n' !in PrintedLine(d.nv, d.lines[i], stamp)[0]
    ensures Harmless(ParseLine(PrintedLine(d.nv, d.lines[i], stamp)[0]))
  {
    hide ParseLine, IsTrimmed;
    var line := d.lines[i];
    match Stamped(line, stamp)
    case NameLine(name) =>
      assert NameLine(name) in d.lines;
      if LooksLikeComment(name) {
        CommentIsReadBack(name + "=" + d.nv[name]);
      } else {
        PairIsReadBack(name, d.nv[name]);
      }
      PairText(name, d.nv[name]);
    case Comment(text) => CommentIsReadBack(text);
    case Empty => EmptyIsBlank();
  }

  lemma {:induction false} PrintedIsHarmless(d: Data, stamp: string, n: nat)
    requires n <= |d.lines| && Parsable(d) && '\n' !in stamp
    ensures forall i :: 0 <= i < |PrintedLines(d, stamp, n)| ==>
              '\n' !in PrintedLines(d, stamp, n)[i] && Harmless(ParseLine(PrintedLines(d, stamp, n)[i]))
  {
    hide ParseLine, PrintedLine, Parsable, Harmless;
    if n > 0 {
      PrintedIsHarmless(d, stamp, n - 1);
      LineIsHarmless(d, n - 1, stamp);
    }
  }

  lemma {:induction false} LoadsHarmless(texts: seq<string>, n: nat)
    requires n <= |texts| && forall i :: 0 <= i < |texts| ==> Harmless(ParseLine(texts[i]))
    ensures NoHiddenComments(Load(ReadAll, texts, n).data)
  {
    hide ParseLine, LooksLikeComment;
    if n > 0 {
      LoadsHarmless(texts, n - 1);
    }
  }

  /** What is read from a printed file never has such a name. */
  lemma PrintedHidesNothing(d: Data, stamp: string)
    requires Parsable(d) && '\n' !in stamp
    ensures NoHiddenComments(Parse(ReadAll, Print(d, stamp)).data)
  {
    hide ParseLine, Parsable, NoHiddenComments, Harmless, LinesFrom;
    var printed := PrintedLines(d, stamp, |d.lines|);
    PrintedIsHarmless(d, stamp, |d.lines|);
    SplitPrinted(Print(d, stamp), 0, printed, 0);
    assert printed[0..] == printed;
    EmptyIsHarmless();
    LoadsHarmless(printed + [""], |printed| + 1);
  }

  lemma EmptyIsHarmless()
    ensures Harmless(ParseLine(""))
  {
    EmptyIsBlank();
  }

  /** Whatever was read can be written and read again exactly if no name looks like a comment. */
  lemma ReloadKeepsValues(file: string, stamp: string)
    requires '\n' !in stamp
    ensures
      var d := Parse(ReadAll, file).data;
      var again := Parse(ReadAll, Print(d, stamp));
      && (NoHiddenComments(d) <==> again.data.nv == d.nv)
      && (NoHiddenComments(d) ==> again == Loaded(Data(d.nv, StampedLines(d.lines, stamp) + [Empty]), false))
  {
    hide Parse, Print, IsTrimmed;
    ParsedIsParsable(file);
    var d := Parse(ReadAll, file).data;
    PrintedHidesNothing(d, stamp);
    if NoHiddenComments(d) {
      forall i | 0 <= i < |d.lines|
        ensures LineFits(d.lines[i])
      {
        assert d.lines[i] in d.lines;
      }
      RoundTrip(d, stamp);
    }
  }

  // ----- Without the lines: mode ReadNameValue -----

  /** Every pair on a line of its own, and an empty line after it. */
  function ListedLines(nv: map<string, string>, order: seq<string>, n: nat): seq<string>
    requires n <= |order| && forall i :: 0 <= i < |order| ==> order[i] in nv
  {
    if n == 0 then [] else ListedLines(nv, order, n - 1) + [order[n - 1] + "=" + nv[order[n - 1]], ""]
  }

  /** What is written in the order of the map. */
  function Listing(nv: map<string, string>, order: seq<string>): string
    requires forall i :: 0 <= i < |order| ==> order[i] in nv
  {
    Unlines(ListedLines(nv, order, |order|), 0)
  }

  ghost predicate Enumerates(order: seq<string>, nv: map<string, string>) {
    forall name :: name in nv <==> name in order
  }

  ghost predicate PairsFit(nv: map<string, string>) {
    forall name :: name in nv ==> LineFits(NameLine(name)) && IsTrimmed(nv[name]) && '\n' !in nv[name]
  }

  lemma PairText(name: string, value: string)
    requires '\n' !in name && '\n' !in value
    ensures '\n' !in name + "=" + value
  {
  }

  lemma {:induction false} ListedShape(nv: map<string, string>, order: seq<string>, n: nat)
    requires n <= |order| && Enumerates(order, nv) && PairsFit(nv)
    ensures |ListedLines(nv, order, n)| == 2 * n
    ensures forall i :: 0 <= i < 2 * n ==> '\n' !in ListedLines(nv, order, n)[i]
  {
    if n > 0 {
      ListedShape(nv, order, n - 1);
      assert order[n - 1] in order;
      PairText(order[n - 1], nv[order[n - 1]]);
    }
  }

  ghost predicate Holds(nv: map<string, string>, names: seq<string>, l: Loaded) {
    && !l.bad && l.data.lines == []
    && (forall name :: name in l.data.nv <==> name in names)
    && (forall name :: name in l.data.nv ==> name in nv && l.data.nv[name] == nv[name])
  }

  lemma HoldsOneMore(nv: map<string, string>, names: seq<string>, name: string, l: Loaded)
    requires Holds(nv, names, l) && name in nv
    ensures Holds(nv, names + [name], Loaded(Add(ReadNameValue, l.data, Pair(name, nv[name])), false))
  {
  }

  lemma {:induction false} LoadsListed(nv: map<string, string>, order: seq<string>, texts: seq<string>, n: nat)
    requires n <= |order| && Enumerates(order, nv) && PairsFit(nv)
    requires 2 * n <= |texts| && ListedLines(nv, order, n) == texts[..2 * n]
    ensures Holds(nv, order[..n], Load(ReadNameValue, texts, 2 * n))
  {
    hide ParseLine, IsName, IsTrimmed, Holds, Load;
    if n == 0 {
      LoadNothing(ReadNameValue, texts);
      HoldsNothing(nv);
    } else {
      var name, k := order[n - 1], 2 * (n - 1);
      var before := ListedLines(nv, order, n - 1);
      ListedShape(nv, order, n - 1);
      assert texts[..2 * n] == before + [name + "=" + nv[name], ""];
      assert texts[..k] == texts[..2 * n][..k] == before;
      assert texts[k] == texts[..2 * n][k] && texts[k + 1] == texts[..2 * n][k + 1];
      LoadsListed(nv, order, texts, n - 1);
      assert name in order && order[..n] == order[..n - 1] + [name];
      NotBad(nv, order[..n - 1], Load(ReadNameValue, texts, k));
      PairIsReadBack(name, nv[name]);
      EmptyIsBlank();
      LoadOne(ReadNameValue, texts, k, name + "=" + nv[name]);
      LoadOne(ReadNameValue, texts, k + 1, "");
      HoldsOneMore(nv, order[..n - 1], name, Load(ReadNameValue, texts, k));
    }
  }

  lemma HoldsNothing(nv: map<string, string>)
    ensures Holds(nv, [], Loaded(Data(map[], []), false))
  {
  }

  lemma NotBad(nv: map<string, string>, names: seq<string>, l: Loaded)
    requires Holds(nv, names, l)
    ensures !l.bad
  {
  }

  lemma ListingRoundTrip(nv: map<string, string>, order: seq<string>)
    requires Enumerates(order, nv) && PairsFit(nv)
    ensures Parse(ReadNameValue, Listing(nv, order)) == Loaded(Data(nv, []), false)
  {
    hide ParseLine, PairsFit, LinesFrom;
    var printed := ListedLines(nv, order, |order|);
    ListedShape(nv, order, |order|);
    assert (printed + [""])[..2 * |order|] == printed;
    LoadsListed(nv, order, printed + [""], |order|);
    SplitPrinted(Listing(nv, order), 0, printed, 0);
    assert printed[0..] == printed;
    EmptyIsBlank();
    assert order[..|order|] == order;
    SameMap(Load(ReadNameValue, printed + [""], 2 * |order|).data.nv, nv);
  }
}
