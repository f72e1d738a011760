/**
 The log buffer of log.c: lines logged before the log file is known are kept in a FIFO buffer, each
 with a NUL after it, and are written out when the file is opened. Writes may fail.
 */
module LogDrain {
  import opened Bytes
  import opened Buffers

  const MAX_LINE := 4096
  const LF: byte := 10
  const CR: byte := 13

  /** What becomes of one attempt to write a line. */
  datatype Write = Wrote | Refused | NotFlushed

  predicate IsLine(line: seq<byte>) {
    0 !in line && |line| < MAX_LINE
  }

  predicate AreLines(lines: seq<seq<byte>>) {
    forall i :: 0 <= i < |lines| ==> IsLine(lines[i])
  }

  /** The octets that hold the lines from line i on: each with a NUL after it. */
  function Terminated(lines: seq<seq<byte>>, i: nat): seq<byte>
    requires i <= |lines|
    decreases |lines| - i
  {
    if i == |lines| then [] else lines[i] + [0] + Terminated(lines, i + 1)
  }

  /** The lines themselves, from line i up to line j. */
  function Joined(lines: seq<seq<byte>>, i: nat, j: nat): seq<byte>
    requires i <= j <= |lines|
    decreases j - i
  {
    if i == j then [] else lines[i] + Joined(lines, i + 1, j)
  }

  lemma {:induction false} TerminatedAppends(lines: seq<seq<byte>>, line: seq<byte>, i: nat)
    requires i <= |lines|
    ensures Terminated(lines + [line], i) == Terminated(lines, i) + (line + [0])
    decreases |lines| - i
  {
    if i < |lines| {
      TerminatedAppends(lines, line, i + 1);
    } else {
      assert Terminated(lines + [line], i + 1) == [];
    }
  }

  // ----- Making a line -----

  function Stripped(message: seq<byte>): seq<byte> {
    if message == [] then []
    else
      var last := |message| - 1;
      Stripped(message[..last]) + if message[last] == CR || message[last] == LF then [] else [message[last]]
  }

  /** What fits a local array together with its NUL. */
  function Cut(text: seq<byte>): seq<byte> {
    if |text| < MAX_LINE then text else text[..MAX_LINE - 1]
  }

  /** The line that is buffered: the message is cut to the size of a local array, and then the line is. */
  function LineOf(header: seq<byte>, message: seq<byte>): seq<byte> {
    Cut(header + Stripped(Cut(message)) + [LF])
  }

  lemma StrippedOctet(c: byte)
    ensures Stripped([c]) == if c == CR || c == LF then [] else [c]
  {
    assert [c][..0] == [];
  }

  /** Every octet is kept or dropped by itself, and what is kept stays in order. */
  lemma {:induction false} StrippedSum(a: seq<byte>, b: seq<byte>)
    ensures Stripped(a + b) == Stripped(a) + Stripped(b)
  {
    if b == [] {
      assert a + b == a && Stripped(a) + [] == Stripped(a);
    } else {
      var last := |b| - 1;
      LastOfSum(a, b);
      StrippedSum(a, b[..last]);
      var kept := if b[last] == CR || b[last] == LF then [] else [b[last]];
      Regroup(Stripped(a), Stripped(b[..last]), kept);
      StrippedLast(a + b);
    }
  }

  lemma StrippedLast(message: seq<byte>)
    requires message != []
    ensures
      var last := |message| - 1;
      Stripped(message)
      == Stripped(message[..last]) + if message[last] == CR || message[last] == LF then [] else [message[last]]
  {
  }

  lemma {:induction false} NothingToStrip(message: seq<byte>)
    requires CR !in message && LF !in message
    ensures Stripped(message) == message
  {
    if message != [] {
      NothingToStrip(message[..|message| - 1]);
    }
  }

  /** A message without breaks is the text of its line, if the line fits. */
  lemma TextIsKept(header: seq<byte>, message: seq<byte>)
    requires CR !in message && LF !in message && |header| + |message| + 1 < MAX_LINE
    ensures LineOf(header, message) == header + message + [LF]
  {
    NothingToStrip(message);
  }

  /** A line that does not fit keeps its first 4095 octets, and has no end. */
  lemma LongLineIsCut(header: seq<byte>, message: seq<byte>)
    requires |message| < MAX_LINE && |header| + |Stripped(message)| + 1 >= MAX_LINE
    ensures LineOf(header, message) == (header + Stripped(message))[..MAX_LINE - 1]
  {
    hide Stripped;
    var text := header + Stripped(message);
    assert (text + [LF])[..MAX_LINE - 1] == text[..MAX_LINE - 1];
  }

  /** Of a message that does not fit, the first 4095 octets count. */
  lemma LongMessageIsCut(header: seq<byte>, message: seq<byte>)
    requires |message| >= MAX_LINE
    ensures LineOf(header, message) == LineOf(header, message[..MAX_LINE - 1])
  {
    hide Stripped;
  }

  lemma {:induction false} StrippedHasNoBreaks(message: seq<byte>)
    ensures LF !in Stripped(message) && CR !in Stripped(message)
    ensures 0 !in message ==> 0 !in Stripped(message)
  {
    if message != [] {
      StrippedHasNoBreaks(message[..|message| - 1]);
    }
  }

  /** Whatever the message contains, it becomes one line, with no break before its end. */
  lemma LineIsOneLine(header: seq<byte>, message: seq<byte>)
    requires 0 !in header && LF !in header && 0 !in message
    ensures IsLine(LineOf(header, message))
    ensures LF !in LineOf(header, message)[..|LineOf(header, message)| - 1]
  {
    hide Stripped;
    StrippedHasNoBreaks(Cut(message));
    var text := header + Stripped(Cut(message));
    var whole := text + [LF];
    assert whole[..|whole| - 1] == text;
    if |whole| >= MAX_LINE {
      assert whole[..MAX_LINE - 1] == text[..MAX_LINE - 1];
    }
  }

  // ----- What is written -----

  /** What reaches the file when writes succeed or fail as told; a failure skips a single octet. */
  function Emitted(lines: seq<seq<byte>>, i: nat, pos: nat, writes: nat -> Write, n: nat): seq<byte>
    requires i <= |lines| && (i < |lines| ==> pos <= |lines[i]|)
    decreases |lines| - i, if i < |lines| then |lines[i]| - pos else 0
  {
    if i == |lines| then []
    else if writes(n) == Wrote then lines[i][pos..] + Emitted(lines, i + 1, 0, writes, n + 1)
    else
      (if writes(n) == NotFlushed then lines[i][pos..] else []) +
      if pos < |lines[i]| then Emitted(lines, i, pos + 1, writes, n + 1) else Emitted(lines, i + 1, 0, writes, n + 1)
  }

  /** When the writes of all lines succeed, every line is written once and in order. */
  lemma {:induction false} EverythingIsEmitted(lines: seq<seq<byte>>, i: nat, writes: nat -> Write, n: nat)
    requires i <= |lines| && forall k :: n <= k < n + (|lines| - i) ==> writes(k) == Wrote
    ensures Emitted(lines, i, 0, writes, n) == Joined(lines, i, |lines|)
    decreases |lines| - i
  {
    if i < |lines| {
      EverythingIsEmitted(lines, i + 1, writes, n + 1);
      assert lines[i][0..] == lines[i];
    }
  }

  /** What a failed attempt to write a line leaves in the file, with the attempt that follows. */
  function Repeated(line: seq<byte>, write: Write): seq<byte> {
    (if write == NotFlushed then line else []) + if line == [] then [] else line[1..]
  }

  /**
   When a single write fails, on line j, the file gets everything but the first octet of that line if the
   write was refused, and that line and then all but its first octet again if it was not flushed.
   */
  lemma {:induction false} OneFailedWrite(lines: seq<seq<byte>>, i: nat, j: nat, writes: nat -> Write, n: nat)
    requires i <= j < |lines| && writes(n + (j - i)) != Wrote
    requires forall k :: n <= k <= n + (|lines| - i) && k != n + (j - i) ==> writes(k) == Wrote
    ensures Emitted(lines, i, 0, writes, n) ==
            Joined(lines, i, j) + (Repeated(lines[j], writes(n + (j - i))) + Joined(lines, j + 1, |lines|))
    decreases j - i
  {
    assert lines[i][0..] == lines[i];
    if i < j {
      OneFailedWrite(lines, i + 1, j, writes, n + 1);
      Regroup(lines[i], Joined(lines, i + 1, j),
              Repeated(lines[j], writes(n + (j - i))) + Joined(lines, j + 1, |lines|));
    } else {
      AfterFailure(lines, i, writes, n);
      var first := if writes(n) == NotFlushed then lines[i] else [];
      Regroup(first, if lines[i] == [] then [] else lines[i][1..], Joined(lines, i + 1, |lines|));
    }
  }

  lemma AfterFailure(lines: seq<seq<byte>>, i: nat, writes: nat -> Write, n: nat)
    requires i < |lines| && writes(n) != Wrote
    requires forall k :: n < k <= n + (|lines| - i) ==> writes(k) == Wrote
    ensures Emitted(lines, i, 0, writes, n) ==
            (if writes(n) == NotFlushed then lines[i] else []) +
            ((if lines[i] == [] then [] else lines[i][1..]) + Joined(lines, i + 1, |lines|))
  {
    assert lines[i][0..] == lines[i];
    if lines[i] == [] {
      EverythingIsEmitted(lines, i + 1, writes, n + 1);
      assert [] + Joined(lines, i + 1, |lines|) == Joined(lines, i + 1, |lines|);
    } else {
      EverythingIsEmitted(lines, i + 1, writes, n + 2);
      assert Emitted(lines, i, 1, writes, n + 1) == lines[i][1..] + Joined(lines, i + 1, |lines|);
    }
  }

  /** When every write is refused, nothing is written, and the lines are gone. */
  lemma {:induction false} RefusedLinesAreLost(lines: seq<seq<byte>>, i: nat, pos: nat, writes: nat -> Write, n: nat)
    requires i <= |lines| && (i < |lines| ==> pos <= |lines[i]|)
    requires forall k: nat :: writes(k) == Refused
    ensures Emitted(lines, i, pos, writes, n) == []
    decreases |lines| - i, if i < |lines| then |lines[i]| - pos else 0
  {
    if i < |lines| {
      if pos < |lines[i]| {
        RefusedLinesAreLost(lines, i, pos + 1, writes, n + 1);
      } else {
        RefusedLinesAreLost(lines, i + 1, 0, writes, n + 1);
      }
    }
  }

  /** What is in the buffer when the lines before line i and the first octets of line i are gone. */
  function Left(lines: seq<seq<byte>>, i: nat, pos: nat): seq<byte>
    requires i <= |lines| && (i < |lines| ==> pos <= |lines[i]|)
  {
    if i == |lines| then [] else lines[i][pos..] + [0] + Terminated(lines, i + 1)
  }

  /** One more octet, or the whole line with its NUL. */
  lemma LessLeft(lines: seq<seq<byte>>, i: nat, pos: nat)
    requires i < |lines| && pos <= |lines[i]|
    ensures |Left(lines, i, pos)| > |lines[i]| - pos
    ensures Left(lines, i, pos)[|lines[i]| - pos + 1..] == Left(lines, i + 1, 0)
    ensures Left(lines, i, pos)[1..] == if pos < |lines[i]| then Left(lines, i, pos + 1) else Left(lines, i + 1, 0)
  {
    WholeLine(lines, i + 1);
  }

  lemma WholeLine(lines: seq<seq<byte>>, i: nat)
    requires i <= |lines|
    ensures Terminated(lines, i) == Left(lines, i, 0)
  {
    if i < |lines| {
      assert lines[i][0..] == lines[i];
    }
  }

  // ----- The buffer and the file -----

  class Log {
    const buffer: Buffer
    var file: seq<byte>
    ghost var lines: seq<seq<byte>>

    ghost predicate Valid()
      reads this, buffer, buffer.buf
    {
      buffer.Valid() && AreLines(lines) && buffer.Contents() == Terminated(lines, 0)
    }

    constructor ()
      ensures Valid() && fresh(buffer) && fresh(buffer.buf) && lines == [] && file == []
    {
      buffer := new Buffer();
      file, lines := [], [];
    }

    /** LogToFile while the file is not known. */
    method ToBuffer(header: seq<byte>, message: seq<byte>) returns (ok: bool)
      requires Valid() && 0 !in header && LF !in header && 0 !in message
      modifies this`lines, buffer, buffer.buf
      ensures ok ==> Valid() && lines == old(lines) + [LineOf(header, message)]
      ensures ok ==> buffer.Contents() == old(buffer.Contents()) + (LineOf(header, message) + [0])
    {
      var line := LineOf(header, message);
      LineIsOneLine(header, message);
      ok := buffer.Append(line + [0]);
      TerminatedAppends(lines, line, 0);
      lines := lines + [line];
    }

    /** LogBufferLineToFile: the C string at the start of the buffer, through a local array. */
    method LineToFile(write: Write, ghost rest: seq<byte>, ghost line: seq<byte>) returns (chars: nat)
      requires buffer.Valid() && IsLine(line) && buffer.Contents() == line + [0] + rest
      modifies this`file
      ensures file == old(file) + if write == Refused then [] else line
      ensures chars == if write == Wrote then |line| else 0
    {
      var n := 0;
      while buffer.buf[buffer.offset + n] != 0
        invariant n <= |line|
        invariant forall i :: 0 <= i < |line| + 1 ==> buffer.buf[buffer.offset + i] == buffer.Contents()[i]
        decreases |line| - n
      {
        n := n + 1;
      }
      assert n == |line|;
      var local := buffer.buf[buffer.offset..buffer.offset + if n < MAX_LINE then n else MAX_LINE - 1];
      assert local == buffer.Contents()[..n] == line;
      chars := 0;
      if write != Refused {
        file := file + local;
      }
      if write == Wrote {
        chars := n;
      }
    }

    /** One pass of the loop: at least one octet is consumed, and never more than there are. */
    method DrainOne(write: Write, ghost i: nat, ghost pos: nat) returns (ghost i': nat, ghost pos': nat)
      requires buffer.Valid() && AreLines(lines) && i <= |lines| && (i < |lines| ==> pos <= |lines[i]|)
      requires buffer.Contents() == Left(lines, i, pos) != []
      modifies this`file, buffer`offset
      ensures buffer.Valid() && i < |lines|
      ensures (i', pos') == if write == Wrote || pos == |lines[i]| then (i + 1, 0) else (i, pos + 1)
      ensures buffer.Contents() == Left(lines, i', pos')
      ensures |buffer.Contents()| < |old(buffer.Contents())|
      ensures file == old(file) + if write == Refused then [] else lines[i][pos..]
    {
      hide Terminated, Left;
      StillALine(lines, i, pos);
      LessLeft(lines, i, pos);
      var chars := LineToFile(write, Terminated(lines, i + 1), lines[i][pos..]);
      buffer.Consume(chars + 1);
      i', pos' := if write == Wrote || pos == |lines[i]| then i + 1 else i,
                  if write == Wrote || pos == |lines[i]| then 0 else pos + 1;
    }

    /**
     The loop of LogConfigure. It ends after at most as many passes as there are octets, and nothing
     stays in the buffer.
     */
    method Drain(writes: nat -> Write) returns (passes: nat)
      requires Valid()
      modifies this`file, this`lines, buffer`offset, buffer`end
      ensures Valid() && lines == [] && buffer.Contents() == []
      ensures file == old(file) + Emitted(old(lines), 0, 0, writes, 0)
      ensures passes <= |old(buffer.Contents())|
    {
      hide Terminated, Emitted, Left;
      passes := 0;
      ghost var i: nat, pos: nat := 0, 0;
      ghost var before, written: seq<byte> := file, [];
      WholeLine(lines, 0);
      while buffer.Len() > 0
        invariant buffer.Valid() && lines == old(lines)
        invariant i <= |lines| && (i < |lines| ==> pos <= |lines[i]|)
        invariant buffer.Contents() == Left(lines, i, pos)
        invariant file == before + written
        invariant Emitted(lines, 0, 0, writes, 0) == written + Emitted(lines, i, pos, writes, passes)
        invariant passes + |buffer.Contents()| <= |old(buffer.Contents())|
        decreases |buffer.Contents()|
      {
        ghost var i0, pos0 := i, pos;
        var write := writes(passes);
        i, pos := DrainOne(write, i, pos);
        ghost var piece := if write == Refused then [] else lines[i0][pos0..];
        EmittedStep(lines, i0, pos0, writes, passes);
        passes := passes + 1;
        Regroup(before, written, piece);
        Regroup(written, piece, Emitted(lines, i, pos, writes, passes));
        written := written + piece;
      }
      NothingLeft(lines, i, pos, writes, passes);
      buffer.Clear();
      lines := [];
      NoLines();
    }
  }

  lemma NoLines()
    ensures Terminated([], 0) == []
  {
  }

  lemma StillALine(lines: seq<seq<byte>>, i: nat, pos: nat)
    requires AreLines(lines) && i <= |lines| && (i < |lines| ==> pos <= |lines[i]|)
    requires Left(lines, i, pos) != []
    ensures i < |lines| && IsLine(lines[i][pos..])
    ensures Left(lines, i, pos) == lines[i][pos..] + [0] + Terminated(lines, i + 1)
  {
    assert i < |lines|;
    assert forall c :: c in lines[i][pos..] ==> c in lines[i];
  }

  lemma NothingLeft(lines: seq<seq<byte>>, i: nat, pos: nat, writes: nat -> Write, n: nat)
    requires i <= |lines| && (i < |lines| ==> pos <= |lines[i]|) && Left(lines, i, pos) == []
    ensures Emitted(lines, i, pos, writes, n) == []
  {
  }

  lemma EmittedStep(lines: seq<seq<byte>>, i: nat, pos: nat, writes: nat -> Write, n: nat)
    requires i < |lines| && pos <= |lines[i]|
    ensures
      var piece := if writes(n) == Refused then [] else lines[i][pos..];
      Emitted(lines, i, pos, writes, n) == piece +
        if writes(n) == Wrote || pos == |lines[i]| then Emitted(lines, i + 1, 0, writes, n + 1)
        else Emitted(lines, i, pos + 1, writes, n + 1)
  {
  }
}
