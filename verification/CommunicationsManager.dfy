/**
 The send queue of messagesender.cc and the three threads of communicationsmgr.cc. Every method of
 the class is one atomic action of one thread; what it does to the state is a function of the state,
 and the properties of all interleavings are proved about sequences of those functions.
 */
module CommunicationsManager {
  import opened Bytes
  import opened Messages

  const MAX_QUEUE_ITEMS := 512
  const INITERRORS_THRESHOLD := 3

  datatype Status = Disconnected | PendingConnection | Connected | FatalError

  /** The sender thread: gone, before its semaphore, past it, or out of its loop. */
  datatype Sender = NoSender | Waiting | Holding | SenderExited

  datatype Receiver = NoReceiver | Reading | ReceiverExited

  /** Where the manager thread is in Work, _CleanupInstance and Initialize. */
  datatype Phase = Loop | StopSender | StopReceiver | Clean | Connect | StartReceiver | Announce

  datatype State = State(
    status: Status,
    enabled: bool,            // m_eSenderState
    queue: seq<Message>,
    semaphore: nat,
    sender: Sender,
    lostToken: bool,          // a sender left its loop between the semaphore and the queue
    receiver: Receiver,
    phase: Phase,
    hasServent: bool,         // m_IPCServent != NULL
    errorCount: nat,
    nMsgSent: u32,
    nMsgProcessed: u32,
    // history since the last reset or the last connection
    posted: seq<Message>,
    sent: seq<Message>)

  datatype SenderEvent =
    | TryWait                 // WaitAndLock( 25 )
    | IncomingData            // CanRead said yes: give the token back
    | IoError                 // CanRead or WriteData failed, or the write was short
    | WriteDone
    | SenderStops             // ShouldStop() seen at the top of the loop

  datatype ReceiverEvent = Idle | ReadFails | Processed | ReceiverStops

  datatype ManagerEvent = Proceed | InitializeSucceeds | InitializeFails

  datatype Action = Post(message: Message) | S(s: SenderEvent) | R(r: ReceiverEvent) | M(m: ManagerEvent)

  // ----- What every action does -----

  const START: State :=
    State(Disconnected, false, [], 0, NoSender, false, NoReceiver, Loop, false, 0, 0, 0, [], [])

  function WithStatus(s: State, status: Status): State {
    s.(status := status, enabled := status == Connected)
  }

  function PostNext(s: State, message: Message): State {
    if s.enabled && |s.queue| < MAX_QUEUE_ITEMS then
      s.(queue := s.queue + [message], semaphore := s.semaphore + 1, posted := s.posted + [message])
    else s
  }

  function SenderNext(s: State, event: SenderEvent): State {
    match s.sender
    case Waiting => (
      match event
      case TryWait => if s.semaphore > 0 then s.(semaphore := s.semaphore - 1, sender := Holding) else s
      case SenderStops => if s.phase == StopSender then s.(sender := SenderExited) else s
      case _ => s)
    case Holding => (
      match event
      case IncomingData => s.(semaphore := s.semaphore + 1, sender := Waiting)
      case IoError => WithStatus(s, Disconnected).(sender := SenderExited, lostToken := true)
      case WriteDone =>
        if s.queue == [] then s
        else s.(queue := s.queue[1..], sent := s.sent + [s.queue[0]], nMsgSent := (s.nMsgSent + 1) % TWO32,
                sender := Waiting)
      case _ => s)
    case _ => s
  }

  function ReceiverNext(s: State, event: ReceiverEvent): State {
    if s.receiver != Reading then s
    else
      match event
      case Idle => s
      case ReadFails => WithStatus(s, Disconnected).(receiver := ReceiverExited)
      case Processed => s.(nMsgProcessed := (s.nMsgProcessed + 1) % TWO32)
      case ReceiverStops => if s.phase == StopReceiver then s.(receiver := ReceiverExited) else s
  }

  function ManagerNext(s: State, event: ManagerEvent): State {
    match s.phase
    case Loop => if s.status == Disconnected then s.(phase := StopSender) else s
    case StopSender =>  // pthread_join returns once the thread is out of its loop
      if s.sender.NoSender? || s.sender.SenderExited? then s.(sender := NoSender, phase := StopReceiver) else s
    case StopReceiver =>
      if s.receiver != Reading then s.(receiver := NoReceiver, phase := Clean) else s
    case Clean =>
      WithStatus(s, PendingConnection).(hasServent := false, queue := [], semaphore := 0, lostToken := false,
                                        posted := [], sent := [], phase := Connect)
    case Connect => (
      match event
      case Proceed => s  // still blocked in m_Servent.Initialize
      case InitializeSucceeds => s.(hasServent := true, sender := Waiting, phase := StartReceiver)
      case InitializeFails =>
        var failed := s.(hasServent := true, errorCount := s.errorCount + 1, phase := Loop);
        WithStatus(failed, if failed.errorCount > INITERRORS_THRESHOLD then FatalError else Disconnected))
    case StartReceiver => s.(receiver := Reading, phase := Announce)
    case Announce => WithStatus(s, Connected).(errorCount := 0, phase := Loop)
  }

  function Next(s: State, action: Action): State {
    match action
    case Post(message) => PostNext(s, message)
    case S(event) => SenderNext(s, event)
    case R(event) => ReceiverNext(s, event)
    case M(event) => ManagerNext(s, event)
  }

  function Run(actions: seq<Action>): State {
    if actions == [] then START
    else
      var last := |actions| - 1;
      Next(Run(actions[..last]), actions[last])
  }

  // ----- Safety of every interleaving -----

  /** A token that left the semaphore without its message leaving the queue. */
  function Outstanding(s: State): nat {
    if s.sender == Holding || s.lostToken then 1 else 0
  }

  ghost predicate Inv(s: State) {
    && |s.queue| == s.semaphore + Outstanding(s)
    && (s.lostToken ==> s.sender in {NoSender, SenderExited})
    && |s.queue| <= MAX_QUEUE_ITEMS
    && s.posted == s.sent + s.queue
    && s.enabled == (s.status == Connected)
    && (s.phase in {Clean, Connect} ==> s.sender == NoSender && s.receiver == NoReceiver)
    && (s.phase == StopReceiver ==> s.sender == NoSender)
    && (s.phase in {StopSender, StopReceiver, Clean} ==> s.status == Disconnected)
    && (s.phase == Connect ==> s.status == PendingConnection && !s.hasServent && s.queue == [] && !s.lostToken)
    && (s.phase == StartReceiver ==> s.status == PendingConnection && s.receiver == NoReceiver)
    && (s.phase in {StartReceiver, Announce} ==>
          && s.status in {PendingConnection, Disconnected} && s.sender == Waiting
          && s.queue == [] && !s.lostToken)
    && (s.phase == Announce ==> s.receiver != NoReceiver)
    && (s.phase == Loop ==> s.status != PendingConnection)
    && (s.status == Connected ==> s.phase == Loop && s.sender in {Waiting, Holding} && s.receiver != NoReceiver)
    && (s.status == FatalError ==> s.phase == Loop && s.sender == NoSender && s.receiver == NoReceiver)
    && (s.status == FatalError <==> s.errorCount > INITERRORS_THRESHOLD)
    && s.errorCount <= INITERRORS_THRESHOLD + 1
  }

  lemma PostKeepsInv(s: State, message: Message)
    requires Inv(s)
    ensures Inv(PostNext(s, message))
  {
    assert s.sent + (s.queue + [message]) == s.sent + s.queue + [message];
  }

  lemma SenderKeepsInv(s: State, event: SenderEvent)
    requires Inv(s)
    ensures Inv(SenderNext(s, event))
  {
    if s.queue != [] {
      assert s.sent + s.queue == s.sent + [s.queue[0]] + s.queue[1..];
    }
  }

  lemma ReceiverKeepsInv(s: State, event: ReceiverEvent)
    requires Inv(s)
    ensures Inv(ReceiverNext(s, event))
  {
  }

  lemma ManagerKeepsInv(s: State, event: ManagerEvent)
    requires Inv(s)
    ensures Inv(ManagerNext(s, event))
  {
  }

  lemma NextKeepsInv(s: State, action: Action)
    requires Inv(s)
    ensures Inv(Next(s, action))
  {
    hide Inv, PostNext, SenderNext, ReceiverNext, ManagerNext;
    match action
    case Post(message) => PostKeepsInv(s, message);
    case S(event) => SenderKeepsInv(s, event);
    case R(event) => ReceiverKeepsInv(s, event);
    case M(event) => ManagerKeepsInv(s, event);
  }

  lemma StartInv()
    ensures Inv(START)
  {
  }

  lemma {:induction false} RunInv(actions: seq<Action>)
    ensures Inv(Run(actions))
  {
    hide Inv, Next;
    if actions == [] {
      StartInv();
    }
    if actions != [] {
      var last := |actions| - 1;
      RunInv(actions[..last]);
      NextKeepsInv(Run(actions[..last]), actions[last]);
    }
  }

  /**
   The queue and the semaphore never disagree by more than the token the sender took, so a sender
   that passed the semaphore finds a message; the queue stays within its bound; and since the last
   reset what was accepted is what was sent followed by what is queued.
   */
  lemma QueueAndSemaphoreAgree(actions: seq<Action>)
    ensures
      var s := Run(actions);
      && |s.queue| == s.semaphore + Outstanding(s)
      && |s.queue| <= MAX_QUEUE_ITEMS && s.semaphore <= MAX_QUEUE_ITEMS
      && s.posted == s.sent + s.queue
      && (s.sender == Holding ==> s.queue != [])
  {
    hide Run, Next;
    RunInv(actions);
  }

  /** The asserts at the head of Initialize, and what holds when a failed initialisation is handled. */
  lemma InitializeFindsNothingRunning(actions: seq<Action>)
    requires Run(actions).phase == Connect
    ensures
      var s := Run(actions);
      && s.status == PendingConnection && !s.hasServent
      && s.sender == NoSender && s.receiver == NoReceiver && s.queue == []
  {
    hide Run, Next;
    RunInv(actions);
  }

  // ----- The fatal state -----

  /** How many initialisations have failed in a row since the last connection was announced. */
  function FailuresInARow(actions: seq<Action>): nat {
    if actions == [] then 0
    else
      var last := |actions| - 1;
      var s := Run(actions[..last]);
      if s.phase == Connect && actions[last] == M(InitializeFails) then FailuresInARow(actions[..last]) + 1
      else if s.phase == Announce && actions[last].M? then 0
      else FailuresInARow(actions[..last])
  }

  lemma ManagerErrorCount(s: State, event: ManagerEvent)
    ensures ManagerNext(s, event).errorCount ==
      if s.phase == Connect && event == InitializeFails then s.errorCount + 1
      else if s.phase == Announce then 0
      else s.errorCount
  {
  }

  lemma SenderErrorCount(s: State, event: SenderEvent)
    ensures SenderNext(s, event).errorCount == s.errorCount
  {
  }

  lemma ReceiverErrorCount(s: State, event: ReceiverEvent)
    ensures ReceiverNext(s, event).errorCount == s.errorCount
  {
  }

  lemma ErrorCountStep(s: State, action: Action)
    ensures Next(s, action).errorCount ==
      if s.phase == Connect && action == M(InitializeFails) then s.errorCount + 1
      else if s.phase == Announce && action.M? then 0
      else s.errorCount
  {
    hide SenderNext, ReceiverNext, ManagerNext;
    match action
    case Post(_) =>
    case S(event) => SenderErrorCount(s, event);
    case R(event) => ReceiverErrorCount(s, event);
    case M(event) => ManagerErrorCount(s, event);
  }

  lemma {:induction false} ErrorCountCounts(actions: seq<Action>)
    ensures Run(actions).errorCount == FailuresInARow(actions)
  {
    hide Inv, Next;
    if actions != [] {
      var last := |actions| - 1;
      ErrorCountCounts(actions[..last]);
      ErrorCountStep(Run(actions[..last]), actions[last]);
    }
  }

  /** The manager gives up on the fourth failure in a row, neither sooner nor later. */
  lemma FatalOnFourthFailure(actions: seq<Action>)
    ensures Run(actions).status == FatalError <==> FailuresInARow(actions) == 4
    ensures FailuresInARow(actions) <= 4
  {
    hide Run, Next, FailuresInARow;
    RunInv(actions);
    ErrorCountCounts(actions);
  }

  lemma RunLast(actions: seq<Action>, more: seq<Action>)
    requires more != []
    ensures Run(actions + more) == Next(Run(actions + more[..|more| - 1]), more[|more| - 1])
  {
    hide Next;
    LastOfSum(actions, more);
    var all := actions + more;
    assert all != [];
  }

  lemma {:induction false} FatalIsForever(actions: seq<Action>, more: seq<Action>)
    requires Run(actions).status == FatalError
    ensures Run(actions + more).status == FatalError
    ensures Run(actions + more).queue == Run(actions).queue
  {
    hide Run;
    if more == [] {
      assert actions + more == actions;
    } else {
      var last := |more| - 1;
      FatalIsForever(actions, more[..last]);
      RunInv(actions + more[..last]);
      RunLast(actions, more);
    }
  }

  // ----- A failure that is overwritten -----

  /** Since the last successful Initialize the receiver has failed before the connection was announced. */
  predicate FailedEarly(actions: seq<Action>) {
    actions != [] &&
    var before, last := actions[..|actions| - 1], actions[|actions| - 1];
    var phase := Run(before).phase;
    if phase == Connect && last == M(InitializeSucceeds) then false
    else (phase == Announce && last == R(ReadFails)) || FailedEarly(before)
  }

  /** From the start of the receiver to the end of the connection, a failed receiver failed early. */
  ghost predicate Deaf(s: State, failed: bool) {
    && (s.phase == StartReceiver ==> !failed)
    && (s.phase == Announce || s.status == Connected ==> (s.receiver == ReceiverExited <==> failed))
  }

  lemma ReceiverDeaf(s: State, event: ReceiverEvent, failed: bool)
    requires Inv(s) && Deaf(s, failed)
    ensures Deaf(ReceiverNext(s, event), failed || (s.phase == Announce && event == ReadFails))
  {
  }

  lemma ManagerDeaf(s: State, event: ManagerEvent, failed: bool)
    requires Inv(s) && Deaf(s, failed)
    ensures Deaf(ManagerNext(s, event), failed && !(s.phase == Connect && event == InitializeSucceeds))
  {
  }

  lemma SenderDeaf(s: State, event: SenderEvent, failed: bool)
    requires Inv(s) && Deaf(s, failed)
    ensures Deaf(SenderNext(s, event), failed)
  {
  }

  lemma {:induction false} DeafExactly(actions: seq<Action>)
    ensures Deaf(Run(actions), FailedEarly(actions))
  {
    hide Inv, Deaf, SenderNext, ReceiverNext, ManagerNext, PostNext;
    if actions == [] {
      DeafAtStart();
    } else {
      var before, last := actions[..|actions| - 1], actions[|actions| - 1];
      DeafExactly(before);
      RunInv(before);
      var s := Run(before);
      match last
      case Post(message) => PostDeaf(s, message, FailedEarly(before));
      case S(event) => SenderDeaf(s, event, FailedEarly(before));
      case R(event) => ReceiverDeaf(s, event, FailedEarly(before));
      case M(event) => ManagerDeaf(s, event, FailedEarly(before));
    }
  }

  lemma DeafAtStart()
    ensures Deaf(START, false)
  {
  }

  lemma PostDeaf(s: State, message: Message, failed: bool)
    requires Deaf(s, failed)
    ensures Deaf(PostNext(s, message), failed)
  {
  }

  /**
   The manager announces the connection after the workers have started. While the status says
   connected the sender is alive, and the receiver is dead exactly if it failed before the announcement.
   */
  lemma ConnectedButDeaf(actions: seq<Action>)
    requires Run(actions).status == Connected
    ensures Run(actions).sender in {Waiting, Holding}
    ensures Run(actions).receiver == ReceiverExited <==> FailedEarly(actions)
  {
    hide Run, Next, FailedEarly;
    RunInv(actions);
    DeafExactly(actions);
  }

  lemma OneMore(actions: seq<Action>, action: Action) returns (longer: seq<Action>)
    ensures longer == actions + [action] && Run(longer) == Next(Run(actions), action)
  {
    hide Next;
    longer := actions + [action];
    assert longer[..|actions|] == actions;
  }

  lemma RunOfNothing()
    ensures Run([]) == START
  {
  }

  /** Such a run exists: the receiver fails before the announcement, which overwrites what it reported. */
  lemma EarlyFailureIsOverwritten() returns (actions: seq<Action>)
    ensures var s := Run(actions); s.status == Connected && s.receiver == ReceiverExited
  {
    hide Run, Inv;
    RunOfNothing();
    actions := OneMore([], M(Proceed));
    actions := OneMore(actions, M(Proceed));
    actions := OneMore(actions, M(Proceed));
    actions := OneMore(actions, M(Proceed));
    assert Run(actions).phase == Connect;
    actions := OneMore(actions, M(InitializeSucceeds));
    actions := OneMore(actions, M(Proceed));
    assert Run(actions).phase == Announce && Run(actions).receiver == Reading;
    actions := OneMore(actions, R(ReadFails));
    actions := OneMore(actions, M(Proceed));
  }

  /** Only a failure of the sender ends that state; until then nothing is received any more. */
  lemma {:induction false} DeafUntilSenderFails(actions: seq<Action>, more: seq<Action>)
    requires Run(actions).status == Connected && Run(actions).receiver == ReceiverExited
    requires S(IoError) !in more
    ensures
      var s := Run(actions + more);
      && s.status == Connected && s.receiver == ReceiverExited
      && s.nMsgProcessed == Run(actions).nMsgProcessed
  {
    hide Run;
    if more == [] {
      assert actions + more == actions;
    } else {
      var last := |more| - 1;
      DeafUntilSenderFails(actions, more[..last]);
      RunInv(actions + more[..last]);
      assert more[last] in more;
      RunLast(actions, more);
    }
  }

  // ----- What can always be reached -----

  /** What the sender does next with what is queued. */
  lemma SenderMoves(s: State)
    requires Inv(s) && s.status == Connected && s.queue != []
    ensures
      s.sender == Waiting ==>
        Next(s, S(TryWait)) == s.(semaphore := s.semaphore - 1, sender := Holding) && s.semaphore > 0
    ensures
      var t := Next(s, S(WriteDone));
      s.sender == Holding ==>
        && t.queue == s.queue[1..] && t.sent == s.sent + [s.queue[0]] && t.posted == s.posted
        && t.status == Connected && t.sender == Waiting && t.nMsgSent == (s.nMsgSent + 1) % TWO32
    ensures s.sender in {Waiting, Holding}
  {
  }

  lemma NothingLeft(s: State)
    requires Inv(s) && s.queue == []
    ensures s.sent == s.posted
  {
  }

  /** From every connected state all that was accepted can be sent, with nothing else happening to it. */
  lemma CanSendAll(actions: seq<Action>) returns (longer: seq<Action>)
    requires Run(actions).status == Connected
    ensures actions <= longer
    ensures
      var s, t := Run(actions), Run(longer);
      && t.status == Connected && t.queue == [] && t.sent == t.posted == s.posted
      && t.nMsgSent == (s.nMsgSent + |s.queue|) % TWO32
    decreases |Run(actions).queue|, Run(actions).sender == Waiting
  {
    hide Run, Next, Inv;
    var s := Run(actions);
    RunInv(actions);
    if s.queue == [] {
      longer := actions;
      NothingLeft(s);
    } else {
      SenderMoves(s);
      longer := OneMore(actions, if s.sender == Waiting then S(TryWait) else S(WriteDone));
      longer := CanSendAll(longer);
    }
  }

  /** How far a state is from a connection. */
  function Distance(s: State): nat {
    match s.phase
    case Loop => if s.status == Connected then 0 else 20
    case StopSender => if s.sender == Holding then 17 else if s.sender == Waiting then 16 else 15
    case StopReceiver => if s.receiver == Reading then 11 else 10
    case Clean => 8
    case Connect => 6
    case StartReceiver => 4
    case Announce => 2
  }

  /** The step towards a connection. */
  function Towards(s: State): Action {
    match s.phase
    case StopSender =>
      if s.sender == Holding then S(IncomingData) else if s.sender == Waiting then S(SenderStops) else M(Proceed)
    case StopReceiver => if s.receiver == Reading then R(ReceiverStops) else M(Proceed)
    case Connect => M(InitializeSucceeds)
    case _ => M(Proceed)
  }

  lemma TowardsLeads(s: State)
    requires Inv(s) && s.status != FatalError && !(s.phase == Loop && s.status == Connected)
    ensures Next(s, Towards(s)).status != FatalError && Distance(Next(s, Towards(s))) < Distance(s)
  {
  }

  lemma ThereYet(s: State)
    requires Inv(s)
    ensures s.status == Connected <==> Distance(s) == 0
  {
  }

  /** From every state but the fatal one, a connection can be announced. */
  lemma CanConnect(actions: seq<Action>) returns (longer: seq<Action>)
    requires Run(actions).status != FatalError
    ensures actions <= longer && Run(longer).status == Connected
    decreases Distance(Run(actions))
  {
    hide Run, Next, Inv, Distance, Towards;
    var s := Run(actions);
    RunInv(actions);
    ThereYet(s);
    if s.status == Connected {
      longer := actions;
    } else {
      TowardsLeads(s);
      longer := OneMore(actions, Towards(s));
      longer := CanConnect(longer);
    }
  }

  // ----- The objects -----

  lemma HoldingHasMessage(s: State)
    requires Inv(s)
    ensures s.sender == Holding ==> s.queue != []
  {
  }

  lemma ConnectFindsNothing(s: State)
    requires Inv(s)
    ensures s.phase == Connect ==>
      s.status == PendingConnection && !s.hasServent && s.sender == NoSender && s.receiver == NoReceiver
  {
  }

  /** MessageSender and the fields of CommunicationsManager that its three threads share. */
  class Manager {
    var status: Status
    var enabled: bool
    var queue: seq<Message>
    var semaphore: nat
    var sender: Sender
    ghost var lostToken: bool
    var receiver: Receiver
    var phase: Phase
    var hasServent: bool
    var errorCount: nat
    var nMsgSent: u32
    var nMsgProcessed: u32
    ghost var posted: seq<Message>
    ghost var sent: seq<Message>

    ghost function View(): State
      reads this
    {
      State(status, enabled, queue, semaphore, sender, lostToken, receiver, phase, hasServent, errorCount, nMsgSent,
            nMsgProcessed, posted, sent)
    }

    constructor ()
      ensures View() == START && Inv(View())
    {
      queue, semaphore, sender, receiver, phase := [], 0, NoSender, NoReceiver, Loop;
      hasServent, errorCount, nMsgSent, nMsgProcessed := false, 0, 0, 0;
      posted, sent, lostToken := [], [], false;
      status, enabled := Disconnected, false;
    }

    method SetState(aState: Status)
      modifies this`status, this`enabled
      ensures View() == WithStatus(old(View()), aState)
    {
      status := aState;
      enabled := status == Connected;
    }

    method PostMessage(message: Message)
      requires Inv(View())
      modifies this`queue, this`semaphore, this`posted
      ensures View() == PostNext(old(View()), message) && Inv(View())
      ensures old(enabled && |queue| < MAX_QUEUE_ITEMS) ==>
        queue == old(queue) + [message] && semaphore == old(semaphore) + 1 && posted == old(posted) + [message]
      ensures !old(enabled && |queue| < MAX_QUEUE_ITEMS) ==> View() == old(View())
    {
      hide Inv;
      PostKeepsInv(View(), message);
      if enabled && |queue| < MAX_QUEUE_ITEMS {
        queue, posted := queue + [message], posted + [message];
        semaphore := semaphore + 1;
      }
    }

    method Reset()
      modifies this`queue, this`semaphore, this`lostToken, this`posted, this`sent
      ensures View() == old(View()).(queue := [], semaphore := 0, lostToken := false, posted := [], sent := [])
    {
      while queue != []
        invariant View() == old(View()).(queue := queue)
      {
        queue := queue[1..];
      }
      semaphore := 0;
      lostToken, posted, sent := false, [], [];
    }

    /** SenderThread::Work at its semaphore. */
    method SenderWait(event: SenderEvent)
      requires Inv(View()) && sender == Waiting
      modifies this`semaphore, this`sender
      ensures View() == SenderNext(old(View()), event) && Inv(View())
      ensures event == TryWait && old(semaphore) > 0 ==> semaphore == old(semaphore) - 1 && sender == Holding
      ensures event == SenderStops && phase == StopSender ==> semaphore == old(semaphore) && sender == SenderExited
      ensures !(event == TryWait && old(semaphore) > 0) && !(event == SenderStops && phase == StopSender) ==>
        View() == old(View())
    {
      hide Inv;
      SenderKeepsInv(View(), event);
      if event == TryWait && semaphore > 0 {
        semaphore, sender := semaphore - 1, Holding;
        HoldingHasMessage(View());
        assert |queue| > 0;  // the source asserts it here
      } else if event == SenderStops && phase == StopSender {
        sender := SenderExited;
      }
    }

    /** The message has been sent completely: it leaves the queue. */
    method TakeOff()
      requires queue != []
      modifies this`queue, this`sender, this`nMsgSent, this`sent
      ensures View() == old(View()).(queue := old(queue)[1..], sent := old(sent) + [old(queue)[0]],
                                     nMsgSent := (old(nMsgSent) + 1) % TWO32, sender := Waiting)
    {
      sent := sent + [queue[0]];
      queue := queue[1..];
      nMsgSent := (nMsgSent + 1) % TWO32;
      sender := Waiting;
    }

    /** SenderThread::Work past its semaphore. */
    method SenderSend(event: SenderEvent)
      requires Inv(View()) && sender == Holding
      modifies this`status, this`enabled, this`queue, this`semaphore, this`sender, this`lostToken, this`nMsgSent
      modifies this`sent
      ensures View() == SenderNext(old(View()), event) && Inv(View())
      ensures event == WriteDone ==>
        && old(queue) != [] && queue == old(queue)[1..] && sent == old(sent) + [old(queue)[0]]
        && sender == Waiting && nMsgSent == (old(nMsgSent) + 1) % TWO32
        && semaphore == old(semaphore) && status == old(status) && enabled == old(enabled)
      ensures event == IncomingData ==>
        View() == old(View()).(semaphore := old(semaphore) + 1, sender := Waiting)
      ensures event == IoError ==>
        View() == old(View()).(status := Disconnected, enabled := false, sender := SenderExited, lostToken := true)
      ensures event == TryWait || event == SenderStops ==> View() == old(View())
    {
      hide Inv;
      SenderKeepsInv(View(), event);
      HoldingHasMessage(View());
      match event {
        case IncomingData =>
          semaphore, sender := semaphore + 1, Waiting;
        case IoError =>
          SetState(Disconnected);
          sender, lostToken := SenderExited, true;
        case WriteDone =>
          TakeOff();
        case _ =>
      }
    }

    /** One iteration of ReceiverThread::Work. */
    method ReceiverStep(event: ReceiverEvent)
      requires Inv(View())
      modifies this`status, this`enabled, this`receiver, this`nMsgProcessed
      ensures View() == ReceiverNext(old(View()), event) && Inv(View())
      ensures old(receiver) == Reading && event == ReadFails ==>
        View() == old(View()).(status := Disconnected, enabled := false, receiver := ReceiverExited)
      ensures old(receiver) == Reading && event == Processed ==>
        View() == old(View()).(nMsgProcessed := (old(nMsgProcessed) + 1) % TWO32)
      ensures old(receiver) == Reading && event == ReceiverStops && phase == StopReceiver ==>
        View() == old(View()).(receiver := ReceiverExited)
      ensures old(receiver) != Reading || event == Idle || (event == ReceiverStops && phase != StopReceiver) ==>
        View() == old(View())
    {
      hide Inv;
      ReceiverKeepsInv(View(), event);
      if receiver == Reading {
        match event {
          case Idle =>
          case ReadFails =>
            SetState(Disconnected);
            receiver := ReceiverExited;
          case Processed =>
            nMsgProcessed := (nMsgProcessed + 1) % TWO32;
          case ReceiverStops =>
            if phase == StopReceiver {
              receiver := ReceiverExited;
            }
        }
      }
    }

    /** _CleanupInstance: join the workers, drop the servent, empty the queue. */
    method CleanupInstance(event: ManagerEvent)
      requires Inv(View()) && phase in {StopSender, StopReceiver, Clean}
      modifies this`status, this`enabled, this`queue, this`semaphore, this`sender, this`lostToken, this`receiver
      modifies this`phase, this`hasServent, this`posted, this`sent
      ensures View() == ManagerNext(old(View()), event) && Inv(View())
      ensures old(phase) == StopSender && old(sender) in {NoSender, SenderExited} ==>
        View() == old(View()).(sender := NoSender, phase := StopReceiver)
      ensures old(phase) == StopReceiver && old(receiver) != Reading ==>
        View() == old(View()).(receiver := NoReceiver, phase := Clean)
      ensures old(phase) == Clean ==>
        && queue == [] && semaphore == 0 && !hasServent && !lostToken && posted == [] && sent == []
        && status == PendingConnection && !enabled && phase == Connect
      ensures old(phase) == StopSender && old(sender) in {Waiting, Holding} ==> View() == old(View())
      ensures old(phase) == StopReceiver && old(receiver) == Reading ==> View() == old(View())
    {
      hide Inv;
      ManagerKeepsInv(View(), event);
      match phase {
        case StopSender =>
          if sender.NoSender? || sender.SenderExited? {
            sender, phase := NoSender, StopReceiver;
          }
        case StopReceiver =>
          if receiver != Reading {
            receiver, phase := NoReceiver, Clean;
          }
        case Clean =>
          hasServent := false;
          Reset();
          SetState(PendingConnection);
          phase := Connect;
      }
    }

    /** Initialize, and what Work does when it fails. */
    method Initialize(event: ManagerEvent)
      requires Inv(View()) && phase in {Connect, StartReceiver}
      modifies this`status, this`enabled, this`sender, this`receiver, this`phase, this`hasServent, this`errorCount
      ensures View() == ManagerNext(old(View()), event) && Inv(View())
      ensures old(phase) == StartReceiver ==> View() == old(View()).(receiver := Reading, phase := Announce)
      ensures old(phase) == Connect && event == InitializeSucceeds ==>
        View() == old(View()).(hasServent := true, sender := Waiting, phase := StartReceiver)
      ensures old(phase) == Connect && event == InitializeFails ==>
        && hasServent && errorCount == old(errorCount) + 1 && phase == Loop && !enabled && sender == NoSender
        && status == if errorCount > 3 then FatalError else Disconnected
      ensures old(phase) == Connect && event == Proceed ==> View() == old(View())
    {
      hide Inv;
      ManagerKeepsInv(View(), event);
      ConnectFindsNothing(View());
      if phase == StartReceiver {
        receiver, phase := Reading, Announce;
        return;
      }
      assert status == PendingConnection && !hasServent && sender == NoSender && receiver == NoReceiver;
      if event == InitializeSucceeds {
        hasServent, sender, phase := true, Waiting, StartReceiver;
      } else if event == InitializeFails {
        hasServent := true;
        errorCount := errorCount + 1;
        SetState(if errorCount > INITERRORS_THRESHOLD then FatalError else Disconnected);
        phase := Loop;
      }
    }

    /** CommunicationsManager::Work around those two. */
    method Work(event: ManagerEvent)
      requires Inv(View()) && phase in {Loop, Announce}
      modifies this`status, this`enabled, this`phase, this`errorCount
      ensures View() == ManagerNext(old(View()), event) && Inv(View())
      ensures old(phase) == Announce ==>
        View() == old(View()).(status := Connected, enabled := true, errorCount := 0, phase := Loop)
      ensures old(phase) == Loop && old(status) == Disconnected ==> View() == old(View()).(phase := StopSender)
      ensures old(phase) == Loop && old(status) != Disconnected ==> View() == old(View())
    {
      hide Inv;
      ManagerKeepsInv(View(), event);
      if phase == Announce {
        errorCount := 0;
        SetState(Connected);
        phase := Loop;
      } else if status == Disconnected {
        phase := StopSender;
      }
    }
  }
}
