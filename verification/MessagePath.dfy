/**
 From a post in one process to the receiver thread of the other: the messages that the sender thread of
 CommunicationsManager hands to its servent go over the pipe of IpcRun.
 */
module MessagePath {
  import opened Bytes
  import opened Messages
  import Servent
  import CM = CommunicationsManager
  import IpcRun

  /** Whatever is posted came out of CreateMessage. */
  ghost predicate PostsAreMessages(actions: seq<CM.Action>) {
    forall i :: 0 <= i < |actions| && actions[i].Post? ==> IsMessage(actions[i].message)
  }

  ghost predicate IsMessage(m: Message) {
    exists msgId, data :: CreateMessage(msgId, data) == Created(m)
  }

  lemma IsSendable(m: Message)
    requires IsMessage(m)
    ensures Servent.Sendable(m)
  {
    var msgId, data :| CreateMessage(msgId, data) == Created(m);
    CreatedMessage(msgId, data);
  }

  lemma SenderKeepsPosted(s: CM.State, event: CM.SenderEvent)
    ensures CM.SenderNext(s, event).posted == s.posted
  {
  }

  lemma ManagerKeepsPosted(s: CM.State, event: CM.ManagerEvent)
    ensures CM.ManagerNext(s, event).posted == s.posted || CM.ManagerNext(s, event).posted == []
  {
  }

  lemma PostedAfter(s: CM.State, action: CM.Action)
    ensures
      var posted := CM.Next(s, action).posted;
      || posted == s.posted || posted == []
      || (action.Post? && posted == s.posted + [action.message])
  {
    hide CM.SenderNext, CM.ManagerNext;
    match action
    case S(event) => SenderKeepsPosted(s, event);
    case M(event) => ManagerKeepsPosted(s, event);
    case _ =>
  }

  lemma {:induction false} PostedAreMessages(actions: seq<CM.Action>)
    requires PostsAreMessages(actions)
    ensures forall i :: 0 <= i < |CM.Run(actions).posted| ==> IsMessage(CM.Run(actions).posted[i])
  {
    hide CM.Next, IsMessage;
    if actions != [] {
      var last := |actions| - 1;
      assert actions[..last] + [actions[last]] == actions;
      PostedAreMessages(actions[..last]);
      PostedAfter(CM.Run(actions[..last]), actions[last]);
    }
  }

  /** The sender has passed its semaphore and not yet taken its message off the queue, or never will. */
  predicate InMessage(s: CM.State) {
    (s.sender == CM.Holding || s.lostToken) && s.queue != []
  }

  /** What the sender thread has written, and the message that it is writing or failed to write. */
  function Written(s: CM.State): seq<Message> {
    s.sent + if InMessage(s) then [s.queue[0]] else []
  }

  lemma WrittenIsSendable(actions: seq<CM.Action>)
    requires PostsAreMessages(actions)
    ensures var s := CM.Run(actions); Written(s) <= s.posted && IpcRun.AllSendable(Written(s))
    ensures CM.Run(actions).lostToken ==> InMessage(CM.Run(actions))
  {
    hide CM.Run, CM.Next, IsMessage;
    var s := CM.Run(actions);
    CM.QueueAndSemaphoreAgree(actions);
    PostedAreMessages(actions);
    assert s.posted == s.sent + s.queue;
    forall i | 0 <= i < |Written(s)|
      ensures Servent.Sendable(Written(s)[i])
    {
      assert Written(s)[i] == s.posted[i];
      IsSendable(s.posted[i]);
    }
  }

  /**
   Whatever the threads of the sending process do, and however the two ends of the pipe are scheduled: as
   long as the receiving process reads whole packets it sees no error, and what it receives is a prefix of
   what was accepted since the connection was made, message for message; once the pipe is empty and the
   writer is past them, it has received all messages that were sent, and those alone while the writer is in
   the message that it holds. A sender that fails stays in that message; see ReceivedAfterFailure.
   */
  lemma ReceivedAsPosted(actions: seq<CM.Action>, first: IpcRun.seqnum, schedule: seq<IpcRun.Move>)
    requires PostsAreMessages(actions)
    ensures
      var s := CM.Run(actions);
      var t := IpcRun.Run(Written(s), first, schedule);
      && t.error == Servent.NoError
      && t.delivered <= Written(s) <= s.posted
      && (t.current == |Written(s)| && t.pipe == [] ==> t.delivered == Written(s))
      && (t.current == |s.sent| && t.pipe == [] ==>
            t.delivered == s.sent && (InMessage(s) ==> t.reader.data <= s.queue[0]))
  {
    hide CM.Run, CM.Next, IpcRun.Run, IsMessage;
    var s := CM.Run(actions);
    var t := IpcRun.Run(Written(s), first, schedule);
    WrittenIsSendable(actions);
    IpcRun.DeliveredInOrder(Written(s), first, schedule);
    if t.pipe == [] {
      IpcRun.ReaderAtTheWriter(Written(s), first, schedule);
      assert Written(s)[..|s.sent|] == s.sent;
    }
  }

  /**
   A sender fails in the message h it holds, of which t.frag fragments went out whole; of the next one n
   octets are written (none, if the failure came before them). The receiving process, which has read all
   whole packets, has received exactly the messages that were sent. A last fragment cut behind its header
   then completes the message, without error, with the octets that the receive buffer holds in place of
   the missing ones; any other fragment is taken so, too, but no message is completed. Of a fragment cut
   within its header not one octet arrives, and what the reader takes for it is in the buffer already.
   */
  lemma ReceivedAfterFailure(actions: seq<CM.Action>, first: IpcRun.seqnum, schedule: seq<IpcRun.Move>, n: nat,
                             stale: seq<byte>)
    requires PostsAreMessages(actions) && CM.Run(actions).lostToken && |stale| == 1024
    requires
      var s := CM.Run(actions);
      var t := IpcRun.Run(Written(s), first, schedule);
      t.current == |s.sent| && t.pipe == []
    ensures InMessage(CM.Run(actions))
    ensures
      var s := CM.Run(actions);
      var t := IpcRun.Run(Written(s), first, schedule);
      var h, k := s.queue[0], t.frag;
      && t.delivered == s.sent
      && Servent.PKT_USERDATA_MAX * k < |h| <= Servent.MAX_USERDATA && t.seqNum < 64
      && t.reader == Servent.ReaderAfter(h, t.seqNum, k)
      && (n < |Servent.Fragment(h, t.seqNum, k)| ==>
            CutIsRead(t.reader, h, t.seqNum, k, n, Servent.BufferBefore(h, t.seqNum, k, stale)))
  {
    hide CM.Run, CM.Next, IpcRun.Run, IsMessage, CutIsRead, Servent.Fragment, Servent.ReaderAfter;
    var s := CM.Run(actions);
    var t := IpcRun.Run(Written(s), first, schedule);
    WrittenIsSendable(actions);
    IpcRun.ReaderAtTheWriter(Written(s), first, schedule);
    assert Written(s)[..|s.sent|] == s.sent && Written(s)[|s.sent|] == s.queue[0];
    if n < |Servent.Fragment(s.queue[0], t.seqNum, t.frag)| {
      ReadingTheCut(s.queue[0], t.seqNum, t.frag, n, stale);
    }
  }

  /** What a reader does that finds n octets of fragment k and then no more. */
  ghost predicate CutIsRead(reader: Servent.Reader, h: Message, seqNum: nat, k: nat, n: nat, buffer: seq<byte>)
    requires Servent.PKT_USERDATA_MAX * k < |h| <= Servent.MAX_USERDATA && seqNum < 64
    requires n < |Servent.Fragment(h, seqNum, k)| && |buffer| == 1024
  {
    var packet := Servent.Fragment(h, seqNum, k);
    var result := Servent.ConsumeOver(reader, buffer, [packet[..n]], 0, Servent.MAX_USERDATA, _ => false);
    && (n == 0 ==> result == Servent.ReadResult(Servent.IpcFailure, reader.data, 1))
    && (0 < n < Servent.HEADER_LENGTH ==> exists held :: result.data == reader.data + held && held <= buffer[4..])
    && (0 < n < 3 && k > 0 ==> result == Servent.ReadResult(Servent.PacketsNotOrdered, reader.data, 1))
    && (n >= Servent.HEADER_LENGTH ==>
          var patched := Servent.Patched(h, k, n, buffer);
          && result == (if k + 1 == Servent.FragmentCount(h) then Servent.ReadResult(Servent.NoError, patched, 1)
                        else Servent.ReadResult(Servent.IpcFailure, patched[..Servent.PKT_USERDATA_MAX * (k + 1)], 1))
          && (patched == h <==> buffer[n..|packet|] == packet[n..]))
  }

  lemma ReadingOne(reader: Servent.Reader, buffer: seq<byte>, packet: Servent.Packet)
    requires |packet| <= |buffer| == 1024
    ensures
      Servent.ConsumeOver(reader, buffer, [packet], 0, Servent.MAX_USERDATA, _ => false) ==
        if packet == [] then Servent.ReadResult(Servent.IpcFailure, reader.data, 1)
        else
          match Servent.Receive(reader, Servent.Overlaid(buffer, packet), Servent.MAX_USERDATA)
          case Broken(error) => Servent.ReadResult(error, reader.data, 1)
          case Complete(data) => Servent.ReadResult(Servent.NoError, data, 1)
          case More(next) => Servent.ReadResult(Servent.IpcFailure, next.data, 1)
  {
    hide Servent.Receive, Servent.Overlaid;
  }

  /** Where the data come from that a reader takes for a fragment cut within its header. */
  lemma TakenFromBuffer(h: Message, seqNum: nat, k: nat, n: nat, stale: seq<byte>)
    requires Servent.PKT_USERDATA_MAX * k < |h| <= Servent.MAX_USERDATA && seqNum < 64
    requires 0 < n < Servent.HEADER_LENGTH && n < |Servent.Fragment(h, seqNum, k)| && |stale| == 1024
    ensures
      var reader, buffer := Servent.ReaderAfter(h, seqNum, k), Servent.BufferBefore(h, seqNum, k, stale);
      var packet := Servent.Fragment(h, seqNum, k)[..n];
      var result := Servent.ConsumeOver(reader, buffer, [packet], 0, Servent.MAX_USERDATA, _ => false);
      exists held :: result.data == reader.data + held && held <= buffer[4..]
  {
    hide Servent.Fragment, Servent.Receive, Servent.Overlaid, Servent.FragmentData;
    var reader, buffer := Servent.ReaderAfter(h, seqNum, k), Servent.BufferBefore(h, seqNum, k, stale);
    var packet := Servent.Fragment(h, seqNum, k)[..n];
    ReadingOne(reader, buffer, packet);
    var taken: seq<byte> := [];
    assert reader.data == reader.data + taken && taken <= buffer[4..];
    if k > 0 {
      Servent.ReceiveCutHeader(h, seqNum, k, n, stale, Servent.MAX_USERDATA);
      Servent.WholeFragment(h, seqNum, k - 1);
      assert buffer[4..] <= buffer[4..];
    } else {
      Servent.ReceiveCutFirstHeader(h, seqNum, n, stale, Servent.MAX_USERDATA);
      var received := Servent.Receive(reader, Servent.Overlaid(buffer, packet), Servent.MAX_USERDATA);
      if !received.Broken? {
        taken := if received.Complete? then received.message else received.reader.data;
        assert reader.data + taken == taken && taken <= buffer[4..];
      }
    }
  }

  lemma ReadingTheCut(h: Message, seqNum: nat, k: nat, n: nat, stale: seq<byte>)
    requires Servent.PKT_USERDATA_MAX * k < |h| <= Servent.MAX_USERDATA && seqNum < 64
    requires n < |Servent.Fragment(h, seqNum, k)| && |stale| == 1024
    ensures CutIsRead(Servent.ReaderAfter(h, seqNum, k), h, seqNum, k, n, Servent.BufferBefore(h, seqNum, k, stale))
  {
    hide Servent.Fragment, Servent.Receive, Servent.Patched, Servent.BufferBefore, Servent.Overlaid;
    var reader, buffer := Servent.ReaderAfter(h, seqNum, k), Servent.BufferBefore(h, seqNum, k, stale);
    Servent.FragmentIndex(h, k + 1);
    Servent.FragmentOctets(h, seqNum, k);
    ReadingOne(reader, buffer, Servent.Fragment(h, seqNum, k)[..n]);
    if n >= Servent.HEADER_LENGTH {
      Servent.ReceiveCut(h, seqNum, k, n, buffer, Servent.MAX_USERDATA);
    } else if n > 0 {
      if k > 0 {
        Servent.ReceiveCutHeader(h, seqNum, k, n, stale, Servent.MAX_USERDATA);
      }
      TakenFromBuffer(h, seqNum, k, n, stale);
    }
  }

  /**
   Such a run exists for every message of one fragment: nothing is sent, the write of the message comes one
   octet short, and the peer still receives a message, without error, whose last octet is a stale one.
   */
  lemma ShortWriteIsAccepted(m: Message) returns (actions: seq<CM.Action>)
    requires IsMessage(m) && Servent.HEADER_LENGTH <= |m| <= Servent.PKT_USERDATA_MAX
    ensures PostsAreMessages(actions)
    ensures
      var s := CM.Run(actions);
      var zeros, pipe := seq(1024, _ => 0), Servent.CutPipe(m, 0, 0, |m| + 3);
      && s.posted == [m] && s.sent == [] && s.lostToken && s.sender == CM.SenderExited
      && Servent.ConsumeOver(Servent.FRESH, zeros, pipe, 0, Servent.MAX_USERDATA, _ => false)
         == Servent.ReadResult(Servent.NoError, m[..|m| - 1] + [0], 1)
  {
    hide CM.Run, IsMessage, Servent.ConsumeOver, Servent.CutPipe;
    actions := ConnectedRun();
    actions := Then(actions, CM.Post(m));
    actions := Then(actions, CM.S(CM.TryWait));
    actions := Then(actions, CM.S(CM.IoError));
    var zeros: seq<byte> := seq(1024, _ => 0);
    Servent.ConsumeCut(m, 0, 0, |m| + 3, zeros, Servent.MAX_USERDATA, _ => false);
    assert Servent.Patched(m, 0, |m| + 3, zeros) == m[..|m| - 1] + [0];
  }

  lemma ConnectedRun() returns (actions: seq<CM.Action>)
    ensures PostsAreMessages(actions)
    ensures
      var s := CM.Run(actions);
      && s.status == CM.Connected && s.enabled && s.queue == [] && s.posted == [] && s.sent == []
      && s.semaphore == 0 && s.sender == CM.Waiting
  {
    hide CM.Run, IsMessage;
    CM.RunOfNothing();
    actions := Then([], CM.M(CM.Proceed));
    actions := Then(actions, CM.M(CM.Proceed));
    actions := Then(actions, CM.M(CM.Proceed));
    actions := Then(actions, CM.M(CM.Proceed));
    assert CM.Run(actions).phase == CM.Connect;
    actions := Then(actions, CM.M(CM.InitializeSucceeds));
    actions := Then(actions, CM.M(CM.Proceed));
    actions := Then(actions, CM.M(CM.Proceed));
  }

  lemma Then(actions: seq<CM.Action>, action: CM.Action) returns (longer: seq<CM.Action>)
    requires PostsAreMessages(actions) && (action.Post? ==> IsMessage(action.message))
    ensures PostsAreMessages(longer) && CM.Run(longer) == CM.Next(CM.Run(actions), action)
  {
    hide CM.Next, IsMessage;
    longer := actions + [action];
    assert longer[..|actions|] == actions;
  }
}
