/**
 A writer and a reader that share one FIFO pipe, interleaved packet by packet. The writer goes
 through the loop of _WriteData for one message after the other; the reader goes through the loop of
 _ReadData again and again. A scheduler picks who moves, and may let either side poll in vain.
 */
module IpcRun {
  import opened Bytes
  import opened Servent

  type Message = seq<byte>

  type seqnum = x: int | 0 <= x < 64

  datatype Move = WritePacket | ReadPacket | PollInVain

  datatype System = System(
    messages: seq<Message>,      // everything the writer has to send
    current: nat,                // the message being written
    frag: nat,                   // how many of its fragments are written
    seqNum: nat,
    pipe: seq<Packet>,
    reader: Reader,
    delivered: seq<Message>,
    error: Error)

  ghost predicate WriterReady(s: System) {
    s.current < |s.messages| ==>
      && Sendable(s.messages[s.current]) && s.seqNum < 64
      && PKT_USERDATA_MAX * s.frag < |s.messages[s.current]|
  }

  function Write(s: System): System
    requires WriterReady(s)
  {
    if s.current >= |s.messages| then s
    else
      var message := s.messages[s.current];
      var packet := Fragment(message, s.seqNum, s.frag);
      if s.frag + 1 < FragmentCount(message) then s.(frag := s.frag + 1, pipe := s.pipe + [packet])
      else s.(current := s.current + 1, frag := 0, seqNum := (s.seqNum + 1) % 64, pipe := s.pipe + [packet])
  }

  function Read(s: System): System
    requires s.pipe != [] ==> Framed(s.pipe[0])
  {
    if s.pipe == [] then s
    else
      var rest := s.(pipe := s.pipe[1..]);
      match Receive(s.reader, Filled(s.pipe[0]), MAX_USERDATA)
      case Broken(error) => rest.(error := error)
      case Complete(message) => rest.(reader := FRESH, delivered := s.delivered + [message])
      case More(reader) => rest.(reader := reader)
  }

  // ----- Positions in the stream of all packets -----

  datatype Place = Place(message: nat, frag: nat)

  function Advance(messages: seq<Message>, p: Place): Place {
    if p.message >= |messages| then p
    else if p.frag + 1 < FragmentCount(messages[p.message]) then Place(p.message, p.frag + 1)
    else Place(p.message + 1, 0)
  }

  /** Which fragment of which message is packet number n of the stream. */
  function Locate(messages: seq<Message>, n: nat): Place {
    if n == 0 then Place(0, 0) else Advance(messages, Locate(messages, n - 1))
  }

  ghost predicate AllSendable(messages: seq<Message>) {
    forall i :: 0 <= i < |messages| ==> Sendable(messages[i])
  }

  ghost predicate InStream(messages: seq<Message>, p: Place) {
    p.message < |messages| && PKT_USERDATA_MAX * p.frag < |messages[p.message]|
  }

  lemma {:induction false} LocateInStream(messages: seq<Message>, n: nat)
    requires AllSendable(messages)
    ensures var p := Locate(messages, n); p.message <= |messages| && (p.message < |messages| ==> InStream(messages, p))
    ensures var p := Locate(messages, n); p.message == |messages| ==> p.frag == 0
  {
    if n > 0 {
      LocateInStream(messages, n - 1);
      var before := Locate(messages, n - 1);
      if before.message < |messages| {
        FragmentIndex(messages[before.message], before.frag + 1);
      }
    }
  }

  /** The sequence number of a message, when the first one has the number the last connection left. */
  function Number(first: seqnum, message: nat): seqnum {
    (first + message) % 64
  }

  function PacketAt(messages: seq<Message>, first: seqnum, p: Place): Packet
    requires AllSendable(messages) && InStream(messages, p)
  {
    Fragment(messages[p.message], Number(first, p.message), p.frag)
  }

  function ReaderAt(messages: seq<Message>, first: seqnum, p: Place): Reader
    requires p.message < |messages| ==> PKT_USERDATA_MAX * p.frag <= |messages[p.message]|
  {
    if p.message < |messages| then ReaderAfter(messages[p.message], Number(first, p.message), p.frag) else FRESH
  }

  // ----- The invariant of every interleaving -----

  /** The writer is at packet `written` of the stream, the reader at packet `read`. */
  ghost predicate Inv(messages: seq<Message>, first: seqnum, s: System, written: nat, read: nat)
    requires AllSendable(messages)
  {
    && read <= written
    && var w, r := Locate(messages, written), Locate(messages, read);
       && w.message <= |messages| && r.message <= |messages|
       && (r.message < |messages| ==> InStream(messages, r))
       && s.messages == messages && s.current == w.message && s.frag == w.frag && s.seqNum == Number(first, w.message)
       && s.reader == ReaderAt(messages, first, r) && s.delivered == messages[..r.message]
       && s.error == NoError
       && PipeHolds(messages, first, s.pipe, written, read)
  }

  ghost predicate PipeHolds(messages: seq<Message>, first: seqnum, pipe: seq<Packet>, written: nat, read: nat)
    requires AllSendable(messages) && read <= written
  {
    && |pipe| == written - read
    && forall n :: read <= n < written ==>
         InStream(messages, Locate(messages, n)) && pipe[n - read] == PacketAt(messages, first, Locate(messages, n))
  }

  function Start(messages: seq<Message>, first: seqnum): System {
    System(messages, 0, 0, first, [], FRESH, [], NoError)
  }

  lemma StartInv(messages: seq<Message>, first: seqnum)
    requires AllSendable(messages)
    ensures Inv(messages, first, Start(messages, first), 0, 0)
  {
    LocateInStream(messages, 0);
  }

  lemma PipeGrows(messages: seq<Message>, first: seqnum, pipe: seq<Packet>, written: nat, read: nat)
    requires AllSendable(messages) && read <= written && PipeHolds(messages, first, pipe, written, read)
    requires InStream(messages, Locate(messages, written))
    ensures PipeHolds(messages, first, pipe + [PacketAt(messages, first, Locate(messages, written))], written + 1, read)
  {
    hide PacketAt, Locate, InStream;
  }

  lemma PipeShrinks(messages: seq<Message>, first: seqnum, pipe: seq<Packet>, written: nat, read: nat)
    requires AllSendable(messages) && read <= written && PipeHolds(messages, first, pipe, written, read) && pipe != []
    ensures read < written
    ensures InStream(messages, Locate(messages, read)) && pipe[0] == PacketAt(messages, first, Locate(messages, read))
    ensures PipeHolds(messages, first, pipe[1..], written, read + 1)
  {
    hide PacketAt, Locate, InStream;
  }

  lemma WriteKeepsInv(messages: seq<Message>, first: seqnum, s: System, written: nat, read: nat)
    requires AllSendable(messages) && Inv(messages, first, s, written, read) && s.current < |messages|
    ensures WriterReady(s) && Inv(messages, first, Write(s), written + 1, read)
  {
    hide Fragment, PipeHolds, ReaderAt, Locate, Write, FragmentCount;
    LocateInStream(messages, written);
    LocateInStream(messages, written + 1);
    PipeGrows(messages, first, s.pipe, written, read);
    WriteAdvances(messages, first, s, Locate(messages, written));
    NextPlace(messages, written);
  }

  lemma NextPlace(messages: seq<Message>, n: nat)
    ensures Locate(messages, n + 1) == Advance(messages, Locate(messages, n))
  {
  }

  /** Writing a packet takes the writer to the next place of the stream. */
  lemma WriteAdvances(messages: seq<Message>, first: seqnum, s: System, w: Place)
    requires AllSendable(messages) && InStream(messages, w)
    requires s.messages == messages && s.current == w.message && s.frag == w.frag
    requires s.seqNum == Number(first, w.message)
    ensures WriterReady(s)
    ensures
      var next := Advance(messages, w);
      Write(s) == s.(current := next.message, frag := next.frag, seqNum := Number(first, next.message),
                     pipe := s.pipe + [PacketAt(messages, first, w)])
  {
    hide Fragment, FragmentCount;
  }

  lemma ReadKeepsInv(messages: seq<Message>, first: seqnum, s: System, written: nat, read: nat)
    requires AllSendable(messages) && Inv(messages, first, s, written, read) && s.pipe != []
    ensures Framed(s.pipe[0]) && Inv(messages, first, Read(s), written, read + 1)
  {
    hide Fragment, Receive, Framed, PipeHolds;
    var r := Locate(messages, read);
    PipeShrinks(messages, first, s.pipe, written, read);
    LocateInStream(messages, read + 1);
    var message := messages[r.message];
    FragmentFramed(message, Number(first, r.message), r.frag);
    ReceiveFragment(message, Number(first, r.message), r.frag,
                    seq(HEADER_LENGTH + PKT_USERDATA_MAX - |s.pipe[0]|, _ => 0), MAX_USERDATA);
    FragmentIndex(message, r.frag + 1);
    if r.frag + 1 == FragmentCount(message) {
      assert messages[..r.message] + [message] == messages[..r.message + 1];
    }
  }

  // ----- Runs -----

  /** What a schedule leads to. A side that cannot move stays where it is. */
  ghost function Run(messages: seq<Message>, first: seqnum, schedule: seq<Move>): System {
    if schedule == [] then Start(messages, first)
    else
      var last := |schedule| - 1;
      var s := Run(messages, first, schedule[..last]);
      match schedule[last]
      case WritePacket => if WriterReady(s) then Write(s) else s.(error := IpcFailure)
      case ReadPacket => if s.pipe != [] ==> Framed(s.pipe[0]) then Read(s) else s.(error := BadPacket)
      case PollInVain => s
  }

  lemma {:induction false} RunInv(messages: seq<Message>, first: seqnum, schedule: seq<Move>)
    returns (written: nat, read: nat)
    requires AllSendable(messages)
    ensures Inv(messages, first, Run(messages, first, schedule), written, read)
  {
    hide Fragment, Framed, Receive, Filled, PacketAt;
    if schedule == [] {
      written, read := 0, 0;
      StartInv(messages, first);
    } else {
      var last := |schedule| - 1;
      written, read := RunInv(messages, first, schedule[..last]);
      var s := Run(messages, first, schedule[..last]);
      if schedule[last] == WritePacket && s.current < |messages| {
        WriteKeepsInv(messages, first, s, written, read);
        written := written + 1;
      } else if schedule[last] == ReadPacket && s.pipe != [] {
        ReadKeepsInv(messages, first, s, written, read);
        read := read + 1;
      }
    }
  }

  /**
   Whatever number the first message carries, whatever the interleaving and however often either side
   polls in vain, the reader never reports an error, what it has delivered is a prefix of what was
   written, and the message it is in the middle of agrees with the next one; once nothing is left to
   write or to read, everything arrived.
   */
  lemma DeliveredInOrder(messages: seq<Message>, first: seqnum, schedule: seq<Move>)
    requires AllSendable(messages)
    ensures
      var s := Run(messages, first, schedule);
      && s.error == NoError
      && s.delivered <= messages
      && (|s.delivered| < |messages| ==> s.reader.data <= messages[|s.delivered|])
      && (s.current == |messages| && s.pipe == [] ==> s.delivered == messages && s.reader == FRESH)
  {
    hide Fragment, Framed, Receive, Filled, PacketAt, Run;
    var written, read := RunInv(messages, first, schedule);
    LocateInStream(messages, written);
    LocateInStream(messages, read);
  }

  /** A reader that has emptied the pipe stands where the writer stands. */
  lemma ReaderAtTheWriter(messages: seq<Message>, first: seqnum, schedule: seq<Move>)
    requires AllSendable(messages) && Run(messages, first, schedule).pipe == []
    ensures
      var s := Run(messages, first, schedule);
      && s.current <= |messages| && s.delivered == messages[..s.current] && s.seqNum == Number(first, s.current)
      && (s.current < |messages| ==>
            && PKT_USERDATA_MAX * s.frag < |messages[s.current]|
            && s.reader == ReaderAfter(messages[s.current], s.seqNum, s.frag))
  {
    hide Fragment, Framed, Receive, Filled, PacketAt, Run, ReaderAfter;
    var written, read := RunInv(messages, first, schedule);
    LocateInStream(messages, written);
  }

  /** Every packet on its way carries a fragment number below 63, so the fragment check never fires. */
  lemma FragmentNumbersStaySmall(messages: seq<Message>, first: seqnum, schedule: seq<Move>)
    requires AllSendable(messages)
    ensures var s := Run(messages, first, schedule); s.frag < 63 && s.seqNum < 64
  {
    hide Fragment, Framed, Receive, Filled, PacketAt, Run;
    var written, read := RunInv(messages, first, schedule);
    LocateInStream(messages, written);
    var w := Locate(messages, written);
    if w.message < |messages| {
      FragmentIndex(messages[w.message], w.frag);
      FragmentsSuffice(messages[w.message]);
    }
  }

  function FragmentsLeft(s: System): int {
    if s.current < |s.messages| then FragmentCount(s.messages[s.current]) - s.frag else 0
  }

  /** No interleaving is a dead end: from every state it can reach, everything can still be delivered. */
  lemma CanFinish(messages: seq<Message>, first: seqnum, schedule: seq<Move>) returns (longer: seq<Move>)
    requires AllSendable(messages)
    ensures schedule <= longer && Run(messages, first, longer).delivered == messages
    decreases
      |messages| - Run(messages, first, schedule).current,
      FragmentsLeft(Run(messages, first, schedule)),
      |Run(messages, first, schedule).pipe|
  {
    hide Fragment, Framed, Receive, Filled, PacketAt;
    var s := Run(messages, first, schedule);
    var written, read := RunInv(messages, first, schedule);
    LocateInStream(messages, written);
    if s.current < |messages| {
      WriteKeepsInv(messages, first, s, written, read);
      longer := schedule + [WritePacket];
      assert longer[..|schedule|] == schedule;
      FragmentIndex(messages[s.current], s.frag);
      longer := CanFinish(messages, first, longer);
    } else if s.pipe != [] {
      ReadKeepsInv(messages, first, s, written, read);
      longer := schedule + [ReadPacket];
      assert longer[..|schedule|] == schedule;
      longer := CanFinish(messages, first, longer);
    } else {
      longer := schedule;
      DeliveredInOrder(messages, first, schedule);
    }
  }
}
