/**
 The bookkeeping of icmp_echo_engine.c as a state machine: echo requests go out, replies come in, and
 pending requests time out, in any order. Times are microseconds; the source compares them as
 floating-point milliseconds.
 */
module EchoRun {
  import opened Bytes

  datatype Mode = Other | KeepAlive | Acd

  datatype Config = Config(mode: Mode, sendInterval: u32, echoNum: u32, threshold: nat)

  datatype Pending = Pending(echoSeq: nat, due: int)

  datatype Counters = Counters(send: u32, ontime: u32, late: u32, consecLate: nat)

  datatype State = State(
    pending: seq<Pending>,
    intact: bool,          // the chain of events still ends in a null pointer
    echoTimeout: u32,      // milliseconds
    counters: Counters,
    starved: nat,          // requests counted although no event could be allocated
    running: bool)         // IEE_process has not been told to leave its loops

  datatype ReadOutcome =
    | PacketBad | PacketIgnored | SelectTimeout | PingInOnTime(echoSeq: nat) | PingInLate
    | SocketClosed | ReadError

  datatype Result = Success | ResourceStarvation | ConnectivityAssessed | GeneralTimeout | GeneralError

  datatype Action =
    | Send(now: int, memory: bool, sendOk: bool)
    | Read(outcome: ReadOutcome, timeLeft: int, readDelay: int)

  // ----- The list of pending events -----

  /** Every pending event is due strictly before the given time. */
  predicate AllEarlier(pending: seq<Pending>, due: int) {
    forall i :: 0 <= i < |pending| ==> pending[i].due < due
  }

  /** How many events the insertion walks past. */
  function InsertionPoint(pending: seq<Pending>, due: int): (k: nat)
    ensures k <= |pending|
    ensures forall i :: 0 <= i < k ==> pending[i].due < due
    ensures k < |pending| ==> due <= pending[k].due
    ensures AllEarlier(pending, due) <==> k == |pending|
  {
    InsertionPointFrom(pending, due, 0)
  }

  function InsertionPointFrom(pending: seq<Pending>, due: int, from: nat): (k: nat)
    requires from <= |pending|
    requires forall i :: 0 <= i < from ==> pending[i].due < due
    ensures from <= k <= |pending|
    ensures forall i :: 0 <= i < k ==> pending[i].due < due
    ensures k < |pending| ==> due <= pending[k].due
    decreases |pending| - from
  {
    if from < |pending| && pending[from].due < due then InsertionPointFrom(pending, due, from + 1) else from
  }

  function InsertSorted(pending: seq<Pending>, e: Pending): seq<Pending> {
    var k := InsertionPoint(pending, e.due);
    pending[..k] + [e] + pending[k..]
  }

  /** The position of the first event with this sequence number, or the length of the list. */
  function Find(pending: seq<Pending>, echoSeq: nat): (k: nat)
    ensures k <= |pending|
    ensures k < |pending| ==> pending[k].echoSeq == echoSeq
    ensures forall i :: 0 <= i < k ==> pending[i].echoSeq != echoSeq
  {
    FindFrom(pending, echoSeq, 0)
  }

  function FindFrom(pending: seq<Pending>, echoSeq: nat, from: nat): (k: nat)
    requires from <= |pending|
    requires forall i :: 0 <= i < from ==> pending[i].echoSeq != echoSeq
    ensures from <= k <= |pending|
    ensures k < |pending| ==> pending[k].echoSeq == echoSeq
    ensures forall i :: 0 <= i < k ==> pending[i].echoSeq != echoSeq
    decreases |pending| - from
  {
    if from < |pending| && pending[from].echoSeq != echoSeq then FindFrom(pending, echoSeq, from + 1) else from
  }

  function Without(pending: seq<Pending>, echoSeq: nat): seq<Pending> {
    var k := Find(pending, echoSeq);
    if k < |pending| then pending[..k] + pending[k + 1..] else pending
  }

  // ----- Sending -----

  /** _compute_echo_timeout: in ACD mode the timeout shrinks with every request, in 32 bits. */
  function EchoTimeout(c: Config, current: u32, countSend: u32): u32 {
    if c.mode == Acd then c.sendInterval * ((c.echoNum - countSend) % TWO32) % TWO32 else current
  }

  function DueTime(now: int, timeout: u32): int {
    now + 1000 * timeout
  }

  /**
   _do_send. With `repaired` the event is linked in where it belongs. As written, an event that is not
   later than all others gets linked into a two-event cycle, and the chain no longer ends.
   */
  function SendNext(c: Config, repaired: bool, s: State, now: int, memory: bool, sendOk: bool): State {
    var echoSeq := s.counters.send % 0x1_0000;
    var counted := s.counters.(send := (s.counters.send + 1) % TWO32);
    if !memory then s.(counters := counted, starved := s.starved + 1, running := false)
    else
      var timeout := EchoTimeout(c, s.echoTimeout, counted.send);
      var e := Pending(echoSeq, DueTime(now, timeout));
      var sent := s.(counters := counted, echoTimeout := timeout, running := s.running && sendOk);
      if AllEarlier(s.pending, e.due) then sent.(pending := s.pending + [e])
      else if repaired then sent.(pending := InsertSorted(s.pending, e))
      else sent.(intact := false)
  }

  function SendResult(memory: bool, sendOk: bool): Result {
    if !memory then ResourceStarvation else if sendOk then Success else GeneralError
  }

  // ----- Reading -----

  /** The switch of _do_read_wrap. */
  function ReadSwitch(c: Config, s: State, outcome: ReadOutcome, timeLeft: int, readDelay: int): (State, Result) {
    var k := s.counters;
    match outcome
    case PacketBad => (s, Success)
    case PacketIgnored => (s, Success)
    case SelectTimeout =>
      if timeLeft > readDelay && s.pending != [] then
        (s.(counters := k.(late := (k.late + 1) % TWO32, consecLate := (k.consecLate + 1) % 0x100),
            pending := Without(s.pending, s.pending[0].echoSeq)), Success)
      else (s, Success)
    case PingInOnTime(echoSeq) =>
      var found := Find(s.pending, echoSeq) < |s.pending|;
      var counted := k.(ontime := (k.ontime + 1) % TWO32, consecLate := 0,
                        late := if found then k.late else (k.late - 1) % TWO32);
      var removed := s.(counters := counted, pending := Without(s.pending, echoSeq));
      var assessed := if c.mode == Acd then removed.(running := false) else removed;
      (LastReply(c, assessed), if c.mode == Acd then ConnectivityAssessed else Success)
    case PingInLate => (LastReply(c, s), Success)
    case SocketClosed => (s.(running := false), Success)
    case ReadError => (s.(running := false), GeneralError)
  }

  function LastReply(c: Config, s: State): State {
    if c.echoNum != 0 && s.counters.send >= c.echoNum then s.(running := false) else s
  }

  /** One pass of the loop of _do_read_wrap. */
  function ReadNext(c: Config, s: State, outcome: ReadOutcome, timeLeft: int, readDelay: int): (State, Result) {
    var (after, result) := ReadSwitch(c, s, outcome, timeLeft, readDelay);
    if after.counters.consecLate >= c.threshold then (after.(running := false), GeneralTimeout) else (after, result)
  }

  /** Nothing is said about an engine whose chain no longer ends. */
  function Next(c: Config, repaired: bool, s: State, action: Action): State {
    if !s.intact then s
    else
      match action
      case Send(now, memory, sendOk) => SendNext(c, repaired, s, now, memory, sendOk)
      case Read(outcome, timeLeft, readDelay) => ReadNext(c, s, outcome, timeLeft, readDelay).0
  }

  function Start(timeout: u32): State {
    State([], true, timeout, Counters(0, 0, 0, 0), 0, true)
  }

  function Run(c: Config, repaired: bool, timeout: u32, actions: seq<Action>): State {
    if actions == [] then Start(timeout)
    else
      var last := |actions| - 1;
      Next(c, repaired, Run(c, repaired, timeout, actions[..last]), actions[last])
  }

  // ----- When the engine stops, and what it says -----

  /**
   A pass of the read loop lets the engine go on exactly if nothing tells it to stop: the socket, an error, a
   reply in ACD mode, a reply after the last request, or too many timeouts in a row.
   */
  lemma GoesOnExactly(c: Config, s: State, outcome: ReadOutcome, timeLeft: int, readDelay: int)
    ensures
      var (t, result) := ReadNext(c, s, outcome, timeLeft, readDelay);
      && (t.running <==>
            && s.running && outcome != SocketClosed && outcome != ReadError
            && !(outcome.PingInOnTime? && c.mode == Acd)
            && !((outcome.PingInOnTime? || outcome.PingInLate?) && c.echoNum != 0 && s.counters.send >= c.echoNum)
            && t.counters.consecLate < c.threshold)
      && (result == Success <==>
            && outcome != ReadError && !(outcome.PingInOnTime? && c.mode == Acd)
            && t.counters.consecLate < c.threshold)
      && (result == ConnectivityAssessed <==>
            outcome.PingInOnTime? && c.mode == Acd && t.counters.consecLate < c.threshold)
  {
    hide Without, Find;
  }

  /** A request lets the engine go on exactly if there is memory for its event and it is sent. */
  lemma SendGoesOnExactly(c: Config, repaired: bool, s: State, now: int, memory: bool, sendOk: bool)
    ensures SendNext(c, repaired, s, now, memory, sendOk).running <==> s.running && memory && sendOk
    ensures SendResult(memory, sendOk) == Success <==> memory && sendOk
    ensures SendResult(memory, sendOk) == ResourceStarvation <==> !memory
  {
    hide InsertSorted, AllEarlier, EchoTimeout;
  }

  // ----- When the threshold ends the engine -----

  /** How many requests have timed out since the last reply in time. */
  function LateInARow(c: Config, repaired: bool, timeout: u32, actions: seq<Action>): nat {
    if actions == [] then 0
    else
      var before, last := actions[..|actions| - 1], actions[|actions| - 1];
      var late := LateInARow(c, repaired, timeout, before);
      if last.Send? then late
      else if last.outcome.PingInOnTime? then 0
      else if last.outcome.SelectTimeout? && last.timeLeft > last.readDelay &&
              Run(c, repaired, timeout, before).pending != [] then late + 1
      else late
  }

  lemma SendKeepsLate(c: Config, repaired: bool, s: State, now: int, memory: bool, sendOk: bool)
    ensures SendNext(c, repaired, s, now, memory, sendOk).counters.consecLate == s.counters.consecLate
  {
    hide InsertSorted, AllEarlier, EchoTimeout;
  }

  lemma ReadLate(c: Config, s: State, outcome: ReadOutcome, timeLeft: int, readDelay: int)
    ensures
      var (t, result) := ReadNext(c, s, outcome, timeLeft, readDelay);
      && t.counters.consecLate ==
           (if outcome.PingInOnTime? then 0
            else if outcome.SelectTimeout? && timeLeft > readDelay && s.pending != [] then
              (s.counters.consecLate + 1) % 0x100
            else s.counters.consecLate)
      && (result == GeneralTimeout <==> t.counters.consecLate >= c.threshold)
      && (result == GeneralTimeout ==> !t.running)
  {
    hide Without, Find;
  }

  lemma {:induction false} LateIsCounted(c: Config, repaired: bool, timeout: u32, actions: seq<Action>)
    ensures
      var s := Run(c, repaired, timeout, actions);
      s.intact ==> s.counters.consecLate == LateInARow(c, repaired, timeout, actions) % 0x100
  {
    hide SendNext, ReadNext;
    if actions != [] {
      var before, last := actions[..|actions| - 1], actions[|actions| - 1];
      LateIsCounted(c, repaired, timeout, before);
      var s := Run(c, repaired, timeout, before);
      if s.intact {
        match last
        case Send(now, memory, sendOk) =>
          SendKeepsLate(c, repaired, s, now, memory, sendOk);
          StaysBroken(c, repaired, s, last);
        case Read(outcome, timeLeft, readDelay) => ReadLate(c, s, outcome, timeLeft, readDelay);
      }
    }
  }

  lemma StaysBroken(c: Config, repaired: bool, s: State, action: Action)
    ensures !s.intact ==> !Next(c, repaired, s, action).intact
  {
    hide SendNext, ReadNext;
  }

  /**
   Over every run: the read loop gives up with a general timeout exactly when the requests that timed out
   since the last reply in time, modulo 256, are at least as many as the threshold says, and then the engine
   is to stop. With a threshold above 255 it never does.
   */
  lemma EndsByThreshold(c: Config, repaired: bool, timeout: u32, actions: seq<Action>, read: Action)
    requires read.Read? && Run(c, repaired, timeout, actions).intact
    ensures
      var (t, result) := ReadNext(c, Run(c, repaired, timeout, actions), read.outcome, read.timeLeft, read.readDelay);
      && (result == GeneralTimeout <==> LateInARow(c, repaired, timeout, actions + [read]) % 0x100 >= c.threshold)
      && (result == GeneralTimeout ==> !t.running)
  {
    hide Run, ReadNext, LateInARow;
    var s := Run(c, repaired, timeout, actions);
    LateIsCounted(c, repaired, timeout, actions);
    ReadLate(c, s, read.outcome, read.timeLeft, read.readDelay);
    LateAfter(c, repaired, timeout, actions, read);
  }

  lemma LateAfter(c: Config, repaired: bool, timeout: u32, actions: seq<Action>, read: Action)
    requires read.Read?
    ensures
      LateInARow(c, repaired, timeout, actions + [read]) ==
        if read.outcome.PingInOnTime? then 0
        else if read.outcome.SelectTimeout? && read.timeLeft > read.readDelay &&
                Run(c, repaired, timeout, actions).pending != [] then LateInARow(c, repaired, timeout, actions) + 1
        else LateInARow(c, repaired, timeout, actions)
  {
    hide Run;
    assert (actions + [read])[..|actions|] == actions;
  }

  // ----- The list stays sorted, and the counters add up -----

  ghost predicate Sorted(pending: seq<Pending>) {
    forall i, j :: 0 <= i < j < |pending| ==> pending[i].due <= pending[j].due
  }

  /** Every request counted as sent is pending, answered in time, late, or was never recorded. */
  ghost predicate Conserved(s: State) {
    exists wraps: int :: Total(s, wraps)
  }

  predicate Total(s: State, wraps: int) {
    s.counters.send == |s.pending| + s.counters.ontime + s.counters.late + s.starved + TWO32 * wraps
  }

  ghost predicate Inv(s: State) {
    s.intact ==> Sorted(s.pending) && Conserved(s)
  }

  lemma WithoutShrinks(pending: seq<Pending>, echoSeq: nat)
    ensures Sorted(pending) ==> Sorted(Without(pending, echoSeq))
    ensures |Without(pending, echoSeq)| == |pending| - if Find(pending, echoSeq) < |pending| then 1 else 0
  {
  }

  lemma InsertKeepsSorted(pending: seq<Pending>, e: Pending)
    requires Sorted(pending)
    ensures Sorted(InsertSorted(pending, e)) && |InsertSorted(pending, e)| == |pending| + 1
    ensures AllEarlier(pending, e.due) ==> InsertSorted(pending, e) == pending + [e]
  {
  }

  lemma SendKeepsInv(c: Config, repaired: bool, s: State, now: int, memory: bool, sendOk: bool)
    requires s.intact && Inv(s)
    ensures Inv(SendNext(c, repaired, s, now, memory, sendOk))
  {
    hide SendNext, InsertSorted, DueOf;
    SendAppends(c, repaired, s, now, memory, sendOk);
    var t := SendNext(c, repaired, s, now, memory, sendOk);
    InsertKeepsSorted(s.pending, EventOf(c, s, now));
    var wraps :| Total(s, wraps);
    if t.intact {
      assert Total(t, if s.counters.send + 1 == TWO32 then wraps - 1 else wraps);
    }
  }

  /** What a pass of the read loop does to the list: nothing, or it takes one event out. */
  lemma ReadRemovesAtMostOne(c: Config, s: State, outcome: ReadOutcome, timeLeft: int, readDelay: int)
    ensures
      var t := ReadNext(c, s, outcome, timeLeft, readDelay).0;
      && t.intact == s.intact && t.starved == s.starved && t.echoTimeout == s.echoTimeout
      && t.counters.send == s.counters.send
      && t.pending == match outcome
                      case SelectTimeout =>
                        if timeLeft > readDelay && s.pending != [] then Without(s.pending, s.pending[0].echoSeq)
                        else s.pending
                      case PingInOnTime(echoSeq) => Without(s.pending, echoSeq)
                      case _ => s.pending
  {
    hide Without, Find;
  }

  /** What a pass of the read loop does to the counters of replies. */
  lemma ReadCounts(c: Config, s: State, outcome: ReadOutcome, timeLeft: int, readDelay: int)
    ensures
      var k, k' := s.counters, ReadNext(c, s, outcome, timeLeft, readDelay).0.counters;
      match outcome
      case SelectTimeout =>
        && k'.ontime == k.ontime
        && k'.late == if timeLeft > readDelay && s.pending != [] then (k.late + 1) % TWO32 else k.late
      case PingInOnTime(echoSeq) =>
        && k'.ontime == (k.ontime + 1) % TWO32
        && k'.late == if Find(s.pending, echoSeq) < |s.pending| then k.late else (k.late - 1) % TWO32
      case _ => k'.ontime == k.ontime && k'.late == k.late
  {
    hide Without, Find;
  }

  lemma ReadKeepsInv(c: Config, s: State, outcome: ReadOutcome, timeLeft: int, readDelay: int)
    requires s.intact && Inv(s)
    ensures Inv(ReadNext(c, s, outcome, timeLeft, readDelay).0)
  {
    hide ReadNext, ReadSwitch, Without, Find;
    ReadRemovesAtMostOne(c, s, outcome, timeLeft, readDelay);
    ReadCounts(c, s, outcome, timeLeft, readDelay);
    var t := ReadNext(c, s, outcome, timeLeft, readDelay).0;
    var k, k' := s.counters, t.counters;
    var wraps :| Total(s, wraps);
    match outcome
    case SelectTimeout =>
      if timeLeft > readDelay && s.pending != [] {
        var head := s.pending[0].echoSeq;
        WithoutShrinks(s.pending, head);
        HeadIsFound(s.pending);
        assert Total(t, wraps + if k'.late == 0 then 1 else 0);
      } else {
        assert Total(t, wraps);
      }
    case PingInOnTime(echoSeq) =>
      WithoutShrinks(s.pending, echoSeq);
      var up := if k'.ontime == 0 then 1 else 0;
      var down := if Find(s.pending, echoSeq) >= |s.pending| && k.late == 0 then 1 else 0;
      assert Total(t, wraps + up - down);
    case _ =>
      assert Total(t, wraps);
  }

  lemma HeadIsFound(pending: seq<Pending>)
    requires pending != []
    ensures Find(pending, pending[0].echoSeq) == 0
  {
  }

  /**
   Over every run, as long as the chain is one: the pending events are sorted by the time they are
   due, and the sent counter is the number of pending events plus the two reply counters plus the
   requests that could not be recorded, modulo 2^32 and through every cancelled timeout.
   */
  lemma {:induction false} RunInv(c: Config, repaired: bool, timeout: u32, actions: seq<Action>)
    ensures Inv(Run(c, repaired, timeout, actions))
  {
    hide Inv, SendNext, ReadNext;
    if actions == [] {
      StartInv(timeout);
    } else {
      var last := |actions| - 1;
      RunInv(c, repaired, timeout, actions[..last]);
      var s := Run(c, repaired, timeout, actions[..last]);
      if s.intact {
        match actions[last]
        case Send(now, memory, sendOk) => SendKeepsInv(c, repaired, s, now, memory, sendOk);
        case Read(outcome, timeLeft, readDelay) => ReadKeepsInv(c, s, outcome, timeLeft, readDelay);
      }
    }
  }

  lemma StartInv(timeout: u32)
    ensures Inv(Start(timeout))
  {
    assert Total(Start(timeout), 0);
  }

  // ----- When the insertion as written is harmless -----

  function Sends(actions: seq<Action>): nat {
    if actions == [] then 0
    else Sends(actions[..|actions| - 1]) + if actions[|actions| - 1].Send? then 1 else 0
  }

  /** When the request is due that is sent at `now` after `sends` others. */
  function DueOf(c: Config, timeout: u32, sends: nat, now: int): int {
    DueTime(now, EchoTimeout(c, timeout, (sends + 1) % TWO32))
  }

  /** When the recorded requests are due, in the order they were sent. */
  function Dues(c: Config, timeout: u32, actions: seq<Action>): seq<int> {
    if actions == [] then []
    else
      var before, last := actions[..|actions| - 1], actions[|actions| - 1];
      Dues(c, timeout, before) +
      if last.Send? && last.memory then [DueOf(c, timeout, Sends(before), last.now)] else []
  }

  /** The chain survives a request exactly if every pending event is due strictly earlier than the new one. */
  lemma SurvivesExactly(c: Config, s: State, now: int, sendOk: bool)
    requires s.intact
    ensures SendNext(c, false, s, now, true, sendOk).intact <==>
              AllEarlier(s.pending, DueOf(c, s.echoTimeout, s.counters.send, now))
    ensures SendNext(c, false, s, now, true, sendOk).intact ==>
              SendNext(c, false, s, now, true, sendOk) == SendNext(c, true, s, now, true, sendOk)
    ensures SendNext(c, true, s, now, true, sendOk).intact
  {
    hide InsertSorted;
  }

  lemma {:induction false} RepairedStaysIntact(c: Config, timeout: u32, actions: seq<Action>)
    ensures Run(c, true, timeout, actions).intact
  {
    hide SendNext, ReadNext;
    if actions != [] {
      var last := |actions| - 1;
      RepairedStaysIntact(c, timeout, actions[..last]);
      var s := Run(c, true, timeout, actions[..last]);
      match actions[last]
      case Send(now, memory, sendOk) => RepairedSendIsIntact(c, s, now, memory, sendOk);
      case Read(outcome, timeLeft, readDelay) => ReadRemovesAtMostOne(c, s, outcome, timeLeft, readDelay);
    }
  }

  lemma RepairedSendIsIntact(c: Config, s: State, now: int, memory: bool, sendOk: bool)
    requires s.intact
    ensures SendNext(c, true, s, now, memory, sendOk).intact
  {
    hide InsertSorted;
  }

  /** Two requests due at the same microsecond are enough to break the chain. */
  lemma EqualDueTimesBreakTheChain()
    ensures
      var c := Config(Other, 1000, 0, 3);
      !Run(c, false, 500, [Send(0, true, true), Send(0, true, true)]).intact
  {
    var c := Config(Other, 1000, 0, 3);
    var a := [Send(0, true, true), Send(0, true, true)];
    assert a[..1] == [Send(0, true, true)] && a[..1][..0] == [];
    assert Run(c, false, 500, []) == Start(500);
    var s := Run(c, false, 500, a[..1]);
    assert s == SendNext(c, false, Start(500), 0, true, true);
    assert s.pending == [Pending(0, 500000)];
    assert s.pending[0].due == 500000;
  }

  /** Every recorded request is due later than the ones before it. */
  ghost predicate Punctual(c: Config, timeout: u32, actions: seq<Action>) {
    var dues := Dues(c, timeout, actions);
    forall i, j :: 0 <= i < j < |dues| ==> dues[i] < dues[j]
  }

  /** The parts of the state that only the requests decide. */
  ghost predicate Tracks(c: Config, timeout: u32, actions: seq<Action>, s: State) {
    && s.counters.send == Sends(actions) % TWO32
    && (c.mode != Acd ==> s.echoTimeout == timeout)
    && forall i :: 0 <= i < |s.pending| ==> s.pending[i].due in Dues(c, timeout, actions)
  }

  lemma PunctualPrefix(c: Config, timeout: u32, actions: seq<Action>)
    requires actions != [] && Punctual(c, timeout, actions)
    ensures Punctual(c, timeout, actions[..|actions| - 1])
  {
    var dues := Dues(c, timeout, actions);
    var before := Dues(c, timeout, actions[..|actions| - 1]);
    assert forall i :: 0 <= i < |before| ==> before[i] == dues[i];
  }

  lemma DueFromState(c: Config, timeout: u32, actions: seq<Action>, s: State, now: int)
    requires Tracks(c, timeout, actions, s)
    ensures DueOf(c, s.echoTimeout, s.counters.send, now) == DueOf(c, timeout, Sends(actions), now)
  {
    hide Sends, Dues;
    assert (Sends(actions) % TWO32 + 1) % TWO32 == (Sends(actions) + 1) % TWO32;
  }

  lemma LastIsLatest(c: Config, timeout: u32, actions: seq<Action>, s: State)
    requires actions != [] && Punctual(c, timeout, actions)
    requires actions[|actions| - 1].Send? && actions[|actions| - 1].memory
    requires Tracks(c, timeout, actions[..|actions| - 1], s)
    ensures AllEarlier(s.pending, DueOf(c, s.echoTimeout, s.counters.send, actions[|actions| - 1].now))
  {
    hide Sends, EchoTimeout, DueOf;
    var last := actions[|actions| - 1];
    var before := actions[..|actions| - 1];
    var dues := Dues(c, timeout, actions);
    DueFromState(c, timeout, before, s, last.now);
    assert dues == Dues(c, timeout, before) + [DueOf(c, timeout, Sends(before), last.now)];
    forall i | 0 <= i < |s.pending|
      ensures s.pending[i].due < DueOf(c, s.echoTimeout, s.counters.send, last.now)
    {
      assert s.pending[i].due in Dues(c, timeout, before);
      var k :| 0 <= k < |Dues(c, timeout, before)| && Dues(c, timeout, before)[k] == s.pending[i].due;
      assert dues[k] < dues[|dues| - 1];
    }
  }

  /** The event of a request sent in this state. */
  function EventOf(c: Config, s: State, now: int): Pending {
    Pending(s.counters.send % 0x1_0000, DueOf(c, s.echoTimeout, s.counters.send, now))
  }

  /** What a request does to the counters and to the list. */
  lemma SendAppends(c: Config, repaired: bool, s: State, now: int, memory: bool, sendOk: bool)
    ensures
      var t := SendNext(c, repaired, s, now, memory, sendOk);
      var e := EventOf(c, s, now);
      && t.counters == s.counters.(send := (s.counters.send + 1) % TWO32)
      && (c.mode != Acd ==> t.echoTimeout == s.echoTimeout)
      && (t.intact <==> s.intact && (!memory || repaired || AllEarlier(s.pending, e.due)))
      && t.starved == (if memory then s.starved else s.starved + 1)
      && t.pending == if !memory then s.pending
                      else if AllEarlier(s.pending, e.due) then s.pending + [e]
                      else if repaired then InsertSorted(s.pending, e)
                      else s.pending
  {
    hide InsertSorted, AllEarlier;
  }

  lemma StepDues(c: Config, timeout: u32, actions: seq<Action>)
    requires actions != []
    ensures
      var before, last := actions[..|actions| - 1], actions[|actions| - 1];
      Dues(c, timeout, actions) == Dues(c, timeout, before) +
        if last.Send? && last.memory then [DueOf(c, timeout, Sends(before), last.now)] else []
  {
  }

  lemma SendTracks(c: Config, timeout: u32, actions: seq<Action>, s: State)
    requires actions != [] && actions[|actions| - 1].Send?
    requires Tracks(c, timeout, actions[..|actions| - 1], s)
    ensures
      var last := actions[|actions| - 1];
      Tracks(c, timeout, actions, SendNext(c, false, s, last.now, last.memory, last.sendOk))
  {
    hide SendNext, DueOf, InsertSorted, EchoTimeout, AllEarlier, Sends, Dues;
    var before := actions[..|actions| - 1];
    var last := actions[|actions| - 1];
    var t := SendNext(c, false, s, last.now, last.memory, last.sendOk);
    SendAppends(c, false, s, last.now, last.memory, last.sendOk);
    DueFromState(c, timeout, before, s, last.now);
    StepDues(c, timeout, actions);
    StepHistory(actions);
    var earlier := Dues(c, timeout, before);
    var due := DueOf(c, timeout, Sends(before), last.now);
    if last.memory {
      assert Dues(c, timeout, actions)[|earlier|] == due;
      assert forall i :: 0 <= i < |earlier| ==> earlier[i] == Dues(c, timeout, actions)[i];
    }
  }

  lemma ReadTracks(c: Config, timeout: u32, actions: seq<Action>, s: State)
    requires actions != [] && actions[|actions| - 1].Read?
    requires Tracks(c, timeout, actions[..|actions| - 1], s)
    ensures
      var last := actions[|actions| - 1];
      Tracks(c, timeout, actions, ReadNext(c, s, last.outcome, last.timeLeft, last.readDelay).0)
  {
    hide ReadNext, ReadSwitch;
    var last := actions[|actions| - 1];
    ReadRemovesAtMostOne(c, s, last.outcome, last.timeLeft, last.readDelay);
    assert Dues(c, timeout, actions) == Dues(c, timeout, actions[..|actions| - 1]);
  }

  /** If so, the list as written never differs from the one with the insertion repaired. */
  lemma {:induction false} PunctualRunsAreIntact(c: Config, timeout: u32, actions: seq<Action>)
    requires Punctual(c, timeout, actions)
    ensures
      var s := Run(c, false, timeout, actions);
      s.intact && s == Run(c, true, timeout, actions) && Tracks(c, timeout, actions, s)
  {
    hide SendNext, ReadNext, Punctual, Tracks;
    if actions == [] {
      StartTracks(c, timeout);
    } else {
      PunctualPrefix(c, timeout, actions);
      var last := actions[|actions| - 1];
      PunctualRunsAreIntact(c, timeout, actions[..|actions| - 1]);
      var s := Run(c, false, timeout, actions[..|actions| - 1]);
      match last
      case Send(now, memory, sendOk) =>
        SendTracks(c, timeout, actions, s);
        if memory {
          LastIsLatest(c, timeout, actions, s);
          SurvivesExactly(c, s, now, sendOk);
        } else {
          StarvedAlike(c, s, now, sendOk);
        }
      case Read(outcome, timeLeft, readDelay) =>
        ReadTracks(c, timeout, actions, s);
        ReadRemovesAtMostOne(c, s, outcome, timeLeft, readDelay);
    }
  }

  lemma StartTracks(c: Config, timeout: u32)
    ensures Tracks(c, timeout, [], Start(timeout))
  {
  }

  lemma StarvedAlike(c: Config, s: State, now: int, sendOk: bool)
    requires s.intact
    ensures SendNext(c, false, s, now, false, sendOk) == SendNext(c, true, s, now, false, sendOk)
    ensures SendNext(c, false, s, now, false, sendOk).intact
  {
  }

  /** Every request is due later than all events pending at that time, in the engine with the repair. */
  predicate InOrder(c: Config, timeout: u32, actions: seq<Action>) {
    actions == [] ||
    var before, last := actions[..|actions| - 1], actions[|actions| - 1];
    && InOrder(c, timeout, before)
    && (last.Send? && last.memory ==>
          var s := Run(c, true, timeout, before);
          AllEarlier(s.pending, DueOf(c, s.echoTimeout, s.counters.send, last.now)))
  }

  /** That is exactly when the list as written stays a chain, and then both engines agree. */
  lemma {:induction false} IntactExactly(c: Config, timeout: u32, actions: seq<Action>)
    ensures Run(c, false, timeout, actions).intact <==> InOrder(c, timeout, actions)
    ensures InOrder(c, timeout, actions) ==> Run(c, false, timeout, actions) == Run(c, true, timeout, actions)
  {
    hide SendNext, ReadNext, AllEarlier, DueOf;
    if actions != [] {
      var before, last := actions[..|actions| - 1], actions[|actions| - 1];
      IntactExactly(c, timeout, before);
      var s := Run(c, false, timeout, before);
      if s.intact {
        match last
        case Send(now, memory, sendOk) =>
          if memory {
            SurvivesExactly(c, s, now, sendOk);
          } else {
            StarvedAlike(c, s, now, sendOk);
          }
        case Read(outcome, timeLeft, readDelay) => ReadRemovesAtMostOne(c, s, outcome, timeLeft, readDelay);
      }
    }
  }

  /** How far apart requests must be: in ACD mode the timeout shrinks by one send interval with each. */
  function Gap(c: Config): nat {
    if c.mode == Acd then 1000 * c.sendInterval else 0
  }

  /** All requests were sent more than the gap before this time. */
  ghost predicate LongBefore(c: Config, actions: seq<Action>, now: int) {
    forall i :: 0 <= i < |actions| && actions[i].Send? ==> actions[i].now + Gap(c) < now
  }

  ghost predicate Apart(c: Config, actions: seq<Action>) {
    forall i :: 0 <= i < |actions| && actions[i].Send? ==> LongBefore(c, actions[..i], actions[i].now)
  }

  /** What the loop of IEE_process grants in ACD mode, and a product of the parameters that fits 32 bits. */
  predicate AcdFits(c: Config, sends: nat) {
    c.mode == Acd ==> sends <= c.echoNum && c.sendInterval * c.echoNum < TWO32
  }

  lemma AcdTimeout(c: Config, current: u32, countSend: u32)
    requires c.mode == Acd && AcdFits(c, countSend)
    ensures EchoTimeout(c, current, countSend) == c.sendInterval * (c.echoNum - countSend)
  {
    var n := c.echoNum - countSend;
    assert c.sendInterval * n == c.sendInterval * c.echoNum - c.sendInterval * countSend;
    assert 0 <= c.sendInterval * countSend && 0 <= c.sendInterval * n;
  }

  /** In ACD mode too, even where the product wraps, a request is due later than the one a gap before it. */
  lemma DueAdvances(c: Config, timeout: u32, sends: nat, now: int, later: int)
    requires now + Gap(c) < later
    ensures DueOf(c, timeout, sends, now) < DueOf(c, timeout, sends + 1, later)
  {
    hide EchoTimeout;
    if c.mode == Acd {
      AcdTimeouts(c, timeout, sends);
    } else {
      FixedTimeout(c, timeout, (sends + 1) % TWO32);
      FixedTimeout(c, timeout, (sends + 1 + 1) % TWO32);
    }
  }

  lemma FixedTimeout(c: Config, current: u32, countSend: u32)
    requires c.mode != Acd
    ensures EchoTimeout(c, current, countSend) == current
  {
  }

  /** The timeout never drops by more than one send interval: where it wraps, it drops by less or rises. */
  lemma AcdTimeouts(c: Config, timeout: u32, sends: nat)
    requires c.mode == Acd
    ensures EchoTimeout(c, timeout, (sends + 1 + 1) % TWO32) >=
            EchoTimeout(c, timeout, (sends + 1) % TWO32) - c.sendInterval
  {
    var left := (c.echoNum - (sends + 1) % TWO32) % TWO32;
    NextResidue(c.echoNum, sends + 1);
    if left > 0 {
      Distribute(c.sendInterval, left - 1);
      WrappedDrop(c.sendInterval * left, c.sendInterval);
    } else {
      assert c.sendInterval * left == 0;
    }
  }

  lemma NextResidue(echoNum: u32, n: nat)
    ensures
      var left := (echoNum - n % TWO32) % TWO32;
      (echoNum - (n + 1) % TWO32) % TWO32 == if left == 0 then TWO32 - 1 else left - 1
  {
  }

  lemma WrappedDrop(p: nat, drop: u32)
    ensures (p - drop) % TWO32 >= p % TWO32 - drop
  {
  }

  lemma Distribute(a: nat, b: int)
    ensures a * (b + 1) == a * b + a
  {
  }

  lemma {:induction false} DuesBefore(c: Config, timeout: u32, actions: seq<Action>, now: int)
    requires Apart(c, actions) && LongBefore(c, actions, now)
    ensures forall i :: 0 <= i < |Dues(c, timeout, actions)| ==>
              Dues(c, timeout, actions)[i] < DueOf(c, timeout, Sends(actions), now)
  {
    hide DueOf;
    if actions != [] {
      var before, last := actions[..|actions| - 1], actions[|actions| - 1];
      ApartPrefix(c, actions);
      if last.Send? {
        DuesBefore(c, timeout, before, last.now);
        DueAdvances(c, timeout, Sends(before), last.now, now);
      } else {
        DuesBefore(c, timeout, before, now);
      }
    }
  }

  lemma ApartPrefix(c: Config, actions: seq<Action>)
    requires actions != [] && Apart(c, actions)
    ensures Apart(c, actions[..|actions| - 1])
    ensures actions[|actions| - 1].Send? ==> LongBefore(c, actions[..|actions| - 1], actions[|actions| - 1].now)
  {
    var before := actions[..|actions| - 1];
    forall i | 0 <= i < |before| && before[i].Send?
      ensures LongBefore(c, before[..i], before[i].now)
    {
      assert before[..i] == actions[..i];
    }
  }

  /**
   Outside ACD mode a clock that advances between requests is enough for the list as written. In ACD
   mode requests must be more than one send interval apart, which is about how often they are sent; the
   number of requests, and whether the timeout fits 32 bits, do not matter.
   */
  lemma {:induction false} SpacedRunsArePunctual(c: Config, timeout: u32, actions: seq<Action>)
    requires Apart(c, actions)
    ensures Punctual(c, timeout, actions)
  {
    if actions != [] {
      var before, last := actions[..|actions| - 1], actions[|actions| - 1];
      ApartPrefix(c, actions);
      SpacedRunsArePunctual(c, timeout, before);
      if last.Send? {
        DuesBefore(c, timeout, before, last.now);
      }
    }
  }

  // ----- Exact counts when sequence numbers do not repeat -----

  /** The sequence numbers below this bound. */
  function Below(n: nat): set<nat> {
    if n == 0 then {} else Below(n - 1) + {n - 1}
  }

  lemma {:induction false} IsBelow(n: nat, k: nat)
    ensures k in Below(n) <==> k < n
  {
    if n > 0 {
      IsBelow(n - 1, k);
    }
  }

  lemma {:induction false} BelowHasSize(n: nat)
    ensures |Below(n)| == n
  {
    if n > 0 {
      BelowHasSize(n - 1);
      IsBelow(n - 1, n - 1);
    }
  }

  lemma BelowHas(n: nat)
    ensures n !in Below(n) && Below(n + 1) == Below(n) + {n}
  {
    IsBelow(n, n);
  }

  function SeqsOf(pending: seq<Pending>): set<nat> {
    set i | 0 <= i < |pending| :: pending[i].echoSeq
  }

  ghost predicate Distinct(pending: seq<Pending>) {
    forall i, j :: 0 <= i < j < |pending| ==> pending[i].echoSeq != pending[j].echoSeq
  }

  /** The requests answered in time. */
  function Answered(actions: seq<Action>): set<nat> {
    if actions == [] then {}
    else
      var last := actions[|actions| - 1];
      Answered(actions[..|actions| - 1]) +
      if last.Read? && last.outcome.PingInOnTime? then {last.outcome.echoSeq} else {}
  }

  /** Every on-time reply answers a request that was sent and not answered before; memory never runs out. */
  predicate Honest(actions: seq<Action>) {
    actions == [] ||
    var before, last := actions[..|actions| - 1], actions[|actions| - 1];
    && Honest(before)
    && (last.Send? ==> last.memory)
    && (last.Read? && last.outcome.PingInOnTime? ==>
          last.outcome.echoSeq < Sends(before) && last.outcome.echoSeq !in Answered(before))
  }

  /** The requests that are neither pending nor answered. */
  function Lost(sends: nat, pending: set<nat>, answered: set<nat>): set<nat> {
    Below(sends) - pending - answered
  }

  lemma {:induction false} SizeOfSeqs(pending: seq<Pending>)
    requires Distinct(pending)
    ensures |SeqsOf(pending)| == |pending|
  {
    hide SeqsOf, Distinct;
    if pending == [] {
      NoSeqs();
    } else {
      var before, e := pending[..|pending| - 1], pending[|pending| - 1];
      SplitDistinct(pending);
      SizeOfSeqs(before);
      InsertAddsSeq(before, e, |before|, pending);
    }
  }

  lemma NoSeqs()
    ensures SeqsOf([]) == {}
  {
  }

  lemma SplitDistinct(pending: seq<Pending>)
    requires pending != [] && Distinct(pending)
    ensures
      var before := pending[..|pending| - 1];
      Distinct(before) && pending[|pending| - 1].echoSeq !in SeqsOf(before)
  {
  }

  lemma WithoutDistinct(pending: seq<Pending>, echoSeq: nat)
    requires Distinct(pending)
    ensures Distinct(Without(pending, echoSeq))
    ensures SeqsOf(Without(pending, echoSeq)) == SeqsOf(pending) - {echoSeq}
    ensures Find(pending, echoSeq) < |pending| <==> echoSeq in SeqsOf(pending)
  {
    var k := Find(pending, echoSeq);
    var w := Without(pending, echoSeq);
    forall x | x in SeqsOf(pending) && x != echoSeq
      ensures x in SeqsOf(w)
    {
      var i :| 0 <= i < |pending| && pending[i].echoSeq == x;
      assert w[if i < k then i else i - 1].echoSeq == x;
    }
  }

  /** Both ways of adding an event are this, at the end or at the insertion point. */
  lemma InsertDistinct(pending: seq<Pending>, e: Pending, k: nat)
    requires k <= |pending| && Distinct(pending) && e.echoSeq !in SeqsOf(pending)
    ensures
      var w := pending[..k] + [e] + pending[k..];
      Distinct(w) && SeqsOf(w) == SeqsOf(pending) + {e.echoSeq}
  {
    hide Distinct, SeqsOf;
    var w := InsertedAt(pending, e, k);
    InsertKeepsDistinct(pending, e, k, w);
    InsertAddsSeq(pending, e, k, w);
  }

  lemma InsertedAt(pending: seq<Pending>, e: Pending, k: nat) returns (w: seq<Pending>)
    requires k <= |pending|
    ensures w == pending[..k] + [e] + pending[k..]
    ensures |w| == |pending| + 1 && w[k] == e
    ensures forall i :: 0 <= i < |pending| ==> pending[i] == w[if i < k then i else i + 1]
    ensures forall j :: 0 <= j < |w| && j != k ==> w[j] == pending[if j < k then j else j - 1]
  {
    w := pending[..k] + [e] + pending[k..];
    forall j | 0 <= j < |w| && j != k
      ensures w[j] == pending[if j < k then j else j - 1]
    {
    }
    forall i | 0 <= i < |pending|
      ensures pending[i] == w[if i < k then i else i + 1]
    {
      var j := if i < k then i else i + 1;
      assert w[j] == pending[if j < k then j else j - 1];
    }
  }

  lemma InsertKeepsDistinct(pending: seq<Pending>, e: Pending, k: nat, w: seq<Pending>)
    requires k <= |pending| && Distinct(pending) && e.echoSeq !in SeqsOf(pending)
    requires |w| == |pending| + 1 && w[k] == e
    requires forall j :: 0 <= j < |w| && j != k ==> w[j] == pending[if j < k then j else j - 1]
    ensures Distinct(w)
  {
    forall i, j | 0 <= i < j < |w|
      ensures w[i].echoSeq != w[j].echoSeq
    {
      var i', j' := if i < k then i else i - 1, if j < k then j else j - 1;
      assert i != k ==> pending[i'].echoSeq in SeqsOf(pending);
      assert j != k ==> pending[j'].echoSeq in SeqsOf(pending);
    }
  }

  lemma InsertAddsSeq(pending: seq<Pending>, e: Pending, k: nat, w: seq<Pending>)
    requires k <= |pending| && |w| == |pending| + 1 && w[k] == e
    requires forall i :: 0 <= i < |pending| ==> pending[i] == w[if i < k then i else i + 1]
    requires forall j :: 0 <= j < |w| && j != k ==> w[j] == pending[if j < k then j else j - 1]
    ensures SeqsOf(w) == SeqsOf(pending) + {e.echoSeq}
  {
    forall x | x in SeqsOf(pending) + {e.echoSeq}
      ensures x in SeqsOf(w)
    {
      if x != e.echoSeq {
        var i :| 0 <= i < |pending| && pending[i].echoSeq == x;
        assert w[if i < k then i else i + 1].echoSeq == x;
      } else {
        assert w[k].echoSeq == x;
      }
    }
  }

  ghost predicate Fresh(s: State, sends: nat) {
    && s.counters.send == sends
    && Distinct(s.pending)
    && SeqsOf(s.pending) <= Below(sends)
  }

  lemma SendStaysFresh(c: Config, repaired: bool, s: State, sends: nat, now: int, memory: bool, sendOk: bool)
    requires Fresh(s, sends) && sends < 0x1_0000
    ensures Fresh(SendNext(c, repaired, s, now, memory, sendOk), sends + 1)
    ensures
      var t := SendNext(c, repaired, s, now, memory, sendOk);
      && (memory && t.intact ==> SeqsOf(t.pending) == SeqsOf(s.pending) + {sends})
      && t.counters.ontime == s.counters.ontime && t.counters.late == s.counters.late
  {
    hide SendNext, InsertionPoint, SeqsOf, Distinct, DueOf, Below, AllEarlier;
    SendAppends(c, repaired, s, now, memory, sendOk);
    BelowHas(sends);
    var t := SendNext(c, repaired, s, now, memory, sendOk);
    if t.pending != s.pending {
      var e := Pending(sends, DueOf(c, s.echoTimeout, s.counters.send, now));
      InsertDistinct(s.pending, e, InsertionPoint(s.pending, e.due));
      InsertDistinct(s.pending, e, |s.pending|);
      assert s.pending[..|s.pending|] + [e] + s.pending[|s.pending|..] == s.pending + [e];
    }
  }

  lemma ReadStaysFresh(c: Config, s: State, sends: nat, outcome: ReadOutcome, timeLeft: int, readDelay: int)
    requires Fresh(s, sends)
    ensures Fresh(ReadNext(c, s, outcome, timeLeft, readDelay).0, sends)
  {
    hide ReadNext, SeqsOf, Distinct, Below;
    ReadRemovesAtMostOne(c, s, outcome, timeLeft, readDelay);
    match outcome
    case SelectTimeout =>
      if s.pending != [] {
        WithoutDistinct(s.pending, s.pending[0].echoSeq);
      }
    case PingInOnTime(echoSeq) => WithoutDistinct(s.pending, echoSeq);
    case _ =>
  }

  /** With at most 65536 requests, no two pending events ever share a sequence number. */
  lemma {:induction false} PendingAreDistinct(c: Config, repaired: bool, timeout: u32, actions: seq<Action>)
    requires Sends(actions) <= 0x1_0000
    ensures
      var s := Run(c, repaired, timeout, actions);
      s.intact ==> Fresh(s, Sends(actions))
  {
    hide SendNext, ReadNext, Fresh;
    if actions == [] {
      StartIsFresh(timeout);
    } else {
      var last := |actions| - 1;
      PendingAreDistinct(c, repaired, timeout, actions[..last]);
      var s := Run(c, repaired, timeout, actions[..last]);
      if s.intact {
        match actions[last]
        case Send(now, memory, sendOk) => SendStaysFresh(c, repaired, s, Sends(actions[..last]), now, memory, sendOk);
        case Read(outcome, timeLeft, readDelay) =>
          ReadStaysFresh(c, s, Sends(actions[..last]), outcome, timeLeft, readDelay);
      }
    }
  }

  lemma StartIsFresh(timeout: u32)
    ensures Fresh(Start(timeout), 0)
  {
  }

  /** Beyond that they do: without any reply, the events carry the numbers of the requests modulo 65536. */
  lemma {:induction false} UnansweredRequests(c: Config, timeout: u32, actions: seq<Action>)
    requires Punctual(c, timeout, actions)
    requires forall i :: 0 <= i < |actions| ==> actions[i].Send? && actions[i].memory
    ensures
      var pending := Run(c, false, timeout, actions).pending;
      && |pending| == |actions| == Sends(actions)
      && forall i :: 0 <= i < |pending| ==>
        && pending[i].echoSeq == i % TWO32 % 0x1_0000
        && pending[i].due == actions[i].now + 1000 * TimeoutOf(c, timeout, i)
  {
    hide SendNext, Punctual, Tracks, DueOf, AllEarlier, TimeoutOf;
    if actions != [] {
      var before, last := actions[..|actions| - 1], actions[|actions| - 1];
      PunctualPrefix(c, timeout, actions);
      UnansweredRequests(c, timeout, before);
      PunctualRunsAreIntact(c, timeout, before);
      var s := Run(c, false, timeout, before);
      TracksCounts(c, timeout, before, s);
      LastIsLatest(c, timeout, actions, s);
      SendAppends(c, false, s, last.now, last.memory, last.sendOk);
      EventIs(c, timeout, |before|, s, last.now);
    }
  }

  /** The timeout of request i, in milliseconds: in ACD mode an interval for every request that is left. */
  function TimeoutOf(c: Config, timeout: u32, i: nat): u32 {
    if c.mode == Acd then c.sendInterval * ((c.echoNum - (i + 1) % TWO32) % TWO32) % TWO32 else timeout
  }

  lemma TracksCounts(c: Config, timeout: u32, actions: seq<Action>, s: State)
    requires Tracks(c, timeout, actions, s)
    ensures s.counters.send == Sends(actions) % TWO32
    ensures c.mode != Acd ==> s.echoTimeout == timeout
  {
  }

  lemma EventIs(c: Config, timeout: u32, i: nat, s: State, now: int)
    requires s.counters.send == i % TWO32 && (c.mode != Acd ==> s.echoTimeout == timeout)
    ensures EventOf(c, s, now) == Pending(i % TWO32 % 0x1_0000, now + 1000 * TimeoutOf(c, timeout, i))
  {
    assert (i % TWO32 + 1) % TWO32 == (i + 1) % TWO32;
  }

  lemma NumbersRepeat(c: Config, timeout: u32, actions: seq<Action>)
    requires Punctual(c, timeout, actions)
    requires forall i :: 0 <= i < |actions| ==> actions[i].Send? && actions[i].memory
    ensures Distinct(Run(c, false, timeout, actions).pending) <==> |actions| <= 0x1_0000
  {
    hide Punctual, Run, Fresh;
    UnansweredRequests(c, timeout, actions);
    var pending := Run(c, false, timeout, actions).pending;
    if |actions| <= 0x1_0000 {
      PunctualRunsAreIntact(c, timeout, actions);
      PendingAreDistinct(c, false, timeout, actions);
      assert Distinct(pending) by { FreshIsDistinct(Run(c, false, timeout, actions), |actions|); }
    } else {
      assert pending[0].echoSeq == pending[0x1_0000].echoSeq;
    }
  }

  lemma FreshIsDistinct(s: State, sends: nat)
    requires Fresh(s, sends)
    ensures Distinct(s.pending)
  {
  }

  /** The counters are what they are named after. */
  ghost predicate Exact(s: State, sends: nat, answered: set<nat>) {
    && s.counters.ontime == |answered|
    && s.counters.late == |Lost(sends, SeqsOf(s.pending), answered)|
    && answered <= Below(sends)
    && SeqsOf(s.pending) !! answered
  }

  lemma HonestPrefix(actions: seq<Action>)
    requires actions != [] && Honest(actions)
    ensures Honest(actions[..|actions| - 1])
    ensures
      var before, last := actions[..|actions| - 1], actions[|actions| - 1];
      && (last.Send? ==> last.memory)
      && (last.Read? && last.outcome.PingInOnTime? ==>
            last.outcome.echoSeq < Sends(before) && last.outcome.echoSeq !in Answered(before))
  {
  }

  lemma LostSizes(sends: nat, pending: set<nat>, answered: set<nat>)
    requires pending <= Below(sends) && answered <= Below(sends) && pending !! answered
    ensures |Lost(sends, pending, answered)| + |pending| + |answered| == sends
  {
    hide Below;
    BelowHasSize(sends);
    var lost := Lost(sends, pending, answered);
    assert Below(sends) == lost + (pending + answered) && lost !! (pending + answered);
  }

  lemma OneMoreSent(sends: nat, pending: set<nat>, answered: set<nat>)
    requires pending <= Below(sends) && answered <= Below(sends)
    ensures Lost(sends + 1, pending + {sends}, answered) == Lost(sends, pending, answered)
    ensures answered <= Below(sends + 1) && sends !in answered
  {
    hide Below;
    BelowHas(sends);
  }

  /** A request stops pending without an answer. */
  lemma OneMoreLost(sends: nat, pending: set<nat>, answered: set<nat>, x: nat)
    requires x in pending && pending <= Below(sends) && pending !! answered
    ensures |Lost(sends, pending - {x}, answered)| == |Lost(sends, pending, answered)| + 1
  {
    hide Below;
    assert Lost(sends, pending - {x}, answered) == Lost(sends, pending, answered) + {x};
  }

  /** An answer comes in, for a pending request or for a lost one. */
  lemma OneMoreAnswered(sends: nat, pending: set<nat>, answered: set<nat>, x: nat)
    requires x < sends && x !in answered && pending !! answered && answered <= Below(sends)
    ensures |answered + {x}| == |answered| + 1 && answered + {x} <= Below(sends)
    ensures (pending - {x}) !! (answered + {x})
    ensures |Lost(sends, pending - {x}, answered + {x})| ==
            |Lost(sends, pending, answered)| - if x in pending then 0 else 1
  {
    hide Below;
    IsBelow(sends, x);
    var lost := Lost(sends, pending, answered);
    if x in pending {
      assert Lost(sends, pending - {x}, answered + {x}) == lost;
    } else {
      assert Lost(sends, pending - {x}, answered + {x}) == lost - {x} && x in lost;
    }
  }

  lemma SendStaysExact(c: Config, repaired: bool, s: State, sends: nat, answered: set<nat>, now: int, sendOk: bool)
    requires s.intact && Fresh(s, sends) && sends < 0x1_0000 && Exact(s, sends, answered)
    ensures
      var t := SendNext(c, repaired, s, now, true, sendOk);
      t.intact ==> Exact(t, sends + 1, answered)
  {
    hide SendNext, SeqsOf, Below, Distinct, Lost;
    SendStaysFresh(c, repaired, s, sends, now, true, sendOk);
    OneMoreSent(sends, SeqsOf(s.pending), answered);
  }

  lemma TimeoutStaysExact(c: Config, s: State, sends: nat, answered: set<nat>, timeLeft: int, readDelay: int)
    requires s.intact && Fresh(s, sends) && sends <= 0x1_0000 && Exact(s, sends, answered)
    ensures Exact(ReadNext(c, s, SelectTimeout, timeLeft, readDelay).0, sends, answered)
  {
    hide ReadNext, SeqsOf, Below, Without, Find, Distinct, Lost;
    var t := ReadNext(c, s, SelectTimeout, timeLeft, readDelay).0;
    ReadRemovesAtMostOne(c, s, SelectTimeout, timeLeft, readDelay);
    ReadCounts(c, s, SelectTimeout, timeLeft, readDelay);
    if timeLeft > readDelay && s.pending != [] {
      var head := s.pending[0].echoSeq;
      WithoutDistinct(s.pending, head);
      HeadIsSeq(s.pending);
      OneMoreLost(sends, SeqsOf(s.pending), answered, head);
      LostSizes(sends, SeqsOf(t.pending), answered);
    }
  }

  lemma ReplyStaysExact(
    c: Config, s: State, sends: nat, answered: set<nat>, echoSeq: nat, timeLeft: int, readDelay: int)
    requires s.intact && Fresh(s, sends) && sends <= 0x1_0000 && Exact(s, sends, answered)
    requires echoSeq < sends && echoSeq !in answered
    ensures Exact(ReadNext(c, s, PingInOnTime(echoSeq), timeLeft, readDelay).0, sends, answered + {echoSeq})
  {
    hide ReadNext, SeqsOf, Below, Without, Find, Distinct, Lost;
    var t := ReadNext(c, s, PingInOnTime(echoSeq), timeLeft, readDelay).0;
    ReadRemovesAtMostOne(c, s, PingInOnTime(echoSeq), timeLeft, readDelay);
    ReadCounts(c, s, PingInOnTime(echoSeq), timeLeft, readDelay);
    WithoutDistinct(s.pending, echoSeq);
    OneMoreAnswered(sends, SeqsOf(s.pending), answered, echoSeq);
    LostSizes(sends, SeqsOf(s.pending), answered);
    LostSizes(sends, SeqsOf(t.pending), answered + {echoSeq});
  }

  lemma OtherReadStaysExact(
    c: Config, s: State, sends: nat, answered: set<nat>, outcome: ReadOutcome, timeLeft: int, readDelay: int)
    requires Exact(s, sends, answered) && !outcome.SelectTimeout? && !outcome.PingInOnTime?
    ensures Exact(ReadNext(c, s, outcome, timeLeft, readDelay).0, sends, answered)
  {
    hide ReadNext, SeqsOf, Below;
    ReadRemovesAtMostOne(c, s, outcome, timeLeft, readDelay);
    ReadCounts(c, s, outcome, timeLeft, readDelay);
  }

  lemma HeadIsSeq(pending: seq<Pending>)
    requires pending != []
    ensures pending[0].echoSeq in SeqsOf(pending)
  {
  }

  /**
   With at most 65536 requests, memory for every event, and replies only to requests that were sent
   and not answered before: the on-time counter is the number of answered requests, and the late
   counter is the number of requests that are neither pending nor answered. So it never goes below
   zero, and the three numbers add up without any wrap-around.
   */
  lemma {:induction false} HonestRunsCountExactly(c: Config, repaired: bool, timeout: u32, actions: seq<Action>)
    requires Honest(actions) && Sends(actions) <= 0x1_0000
    ensures
      var s := Run(c, repaired, timeout, actions);
      s.intact ==>
        && Exact(s, Sends(actions), Answered(actions))
        && s.counters.send == |s.pending| + s.counters.ontime + s.counters.late
  {
    hide SendNext, ReadNext, Fresh, Exact, Honest, Below;
    PendingAreDistinct(c, repaired, timeout, actions);
    if actions == [] {
      StartIsExact(timeout);
    } else {
      var before := actions[..|actions| - 1];
      HonestPrefix(actions);
      HonestRunsCountExactly(c, repaired, timeout, before);
      PendingAreDistinct(c, repaired, timeout, before);
      var s := Run(c, repaired, timeout, before);
      if s.intact {
        StepStaysExact(c, repaired, s, actions);
      }
    }
    var s := Run(c, repaired, timeout, actions);
    if s.intact {
      ExactAddsUp(s, Sends(actions), Answered(actions));
    }
  }

  lemma StepHistory(actions: seq<Action>)
    requires actions != []
    ensures
      var before, last := actions[..|actions| - 1], actions[|actions| - 1];
      && Sends(actions) == Sends(before) + (if last.Send? then 1 else 0)
      && Answered(actions) == if last.Read? && last.outcome.PingInOnTime? then Answered(before) + {last.outcome.echoSeq}
                              else Answered(before)
  {
  }

  lemma StepStaysExact(c: Config, repaired: bool, s: State, actions: seq<Action>)
    requires actions != [] && Honest(actions) && Sends(actions) <= 0x1_0000
    requires s.intact && Fresh(s, Sends(actions[..|actions| - 1]))
    requires Exact(s, Sends(actions[..|actions| - 1]), Answered(actions[..|actions| - 1]))
    ensures
      var t := Next(c, repaired, s, actions[|actions| - 1]);
      t.intact ==> Exact(t, Sends(actions), Answered(actions))
  {
    hide SendNext, ReadNext, Fresh, Exact, Honest, Sends, Answered;
    HonestPrefix(actions);
    StepHistory(actions);
    var before, last := actions[..|actions| - 1], actions[|actions| - 1];
    var sends, answered := Sends(before), Answered(before);
    match last
    case Send(now, memory, sendOk) =>
      SendStaysExact(c, repaired, s, sends, answered, now, sendOk);
    case Read(outcome, timeLeft, readDelay) =>
      match outcome
      case SelectTimeout => TimeoutStaysExact(c, s, sends, answered, timeLeft, readDelay);
      case PingInOnTime(echoSeq) => ReplyStaysExact(c, s, sends, answered, echoSeq, timeLeft, readDelay);
      case _ => OtherReadStaysExact(c, s, sends, answered, outcome, timeLeft, readDelay);
  }

  lemma StartIsExact(timeout: u32)
    ensures Exact(Start(timeout), 0, {})
  {
  }

  lemma ExactAddsUp(s: State, sends: nat, answered: set<nat>)
    requires Fresh(s, sends) && Exact(s, sends, answered)
    ensures s.counters.send == |s.pending| + s.counters.ontime + s.counters.late
  {
    hide SeqsOf, Distinct, Below, Lost;
    SizeOfSeqs(s.pending);
    LostSizes(sends, SeqsOf(s.pending), answered);
  }

  /** The late counter goes below zero exactly on a reply to no pending event while nothing is late. */
  lemma LateGoesBelowZero(c: Config, s: State, outcome: ReadOutcome, timeLeft: int, readDelay: int)
    ensures
      ReadNext(c, s, outcome, timeLeft, readDelay).0.counters.late > s.counters.late + 1 <==>
        && outcome.PingInOnTime? && s.counters.late == 0
        && forall i :: 0 <= i < |s.pending| ==> s.pending[i].echoSeq != outcome.echoSeq
  {
    hide ReadNext, Without, Find;
    ReadCounts(c, s, outcome, timeLeft, readDelay);
    if outcome.PingInOnTime? {
      FindsAny(s.pending, outcome.echoSeq);
    }
  }

  lemma FindsAny(pending: seq<Pending>, echoSeq: nat)
    ensures Find(pending, echoSeq) < |pending| <==> exists i :: 0 <= i < |pending| && pending[i].echoSeq == echoSeq
  {
  }

  /** One duplicated reply is enough. */
  lemma DuplicatedReplyWrapsLate(c: Config, timeout: u32, now: int, timeLeft: int, readDelay: int)
    requires c.mode == Other
    ensures
      var reply := Read(PingInOnTime(0), timeLeft, readDelay);
      Run(c, false, timeout, [Send(now, true, true), reply, reply]).counters.late == TWO32 - 1
  {
    hide Run, SendNext, ReadNext, DueOf, Without, Find;
    var reply := Read(PingInOnTime(0), timeLeft, readDelay);
    var sent := [Send(now, true, true)];
    var s0 := Start(timeout);
    var s1 := SendNext(c, false, s0, now, true, true);
    var s2 := ReadNext(c, s1, PingInOnTime(0), timeLeft, readDelay).0;
    RunOfNothing(c, timeout);
    RunSnoc(c, timeout, [], sent[0]);
    RunSnoc(c, timeout, sent, reply);
    RunSnoc(c, timeout, sent + [reply], reply);
    assert [] + [sent[0]] == sent && sent + [reply] + [reply] == [sent[0], reply, reply];
    SendAppends(c, false, s0, now, true, true);
    assert s1.pending == [s1.pending[0]] && s1.pending[0].echoSeq == 0;
    HeadIsFound(s1.pending);
    NothingFound();
    OnlyOne(s1.pending[0]);
    ReadRemovesAtMostOne(c, s1, PingInOnTime(0), timeLeft, readDelay);
    ReadCounts(c, s1, PingInOnTime(0), timeLeft, readDelay);
    ReadCounts(c, s2, PingInOnTime(0), timeLeft, readDelay);
  }

  lemma RunOfNothing(c: Config, timeout: u32)
    ensures Run(c, false, timeout, []) == Start(timeout)
  {
  }

  lemma RunSnoc(c: Config, timeout: u32, actions: seq<Action>, action: Action)
    ensures Run(c, false, timeout, actions + [action]) == Next(c, false, Run(c, false, timeout, actions), action)
  {
    assert (actions + [action])[..|actions|] == actions;
  }

  lemma NothingFound()
    ensures Find([], 0) == 0
  {
  }

  lemma OnlyOne(e: Pending)
    ensures Without([e], e.echoSeq) == []
  {
    HeadIsFound([e]);
  }
}
