/**
 The two loops of the echo engine, IEE_process and _do_read_wrap, over the state of EchoRun: how far apart
 they send requests, and when the list of pending events can break at all.
 */
module EchoProcess {
  import opened Bytes
  import opened EchoRun

  /** How long the engine waits between two requests. */
  function Interval(c: Config): nat {
    1000 * c.sendInterval
  }

  /** Every request was sent at least one interval before this time. */
  ghost predicate Waited(c: Config, actions: seq<Action>, now: int) {
    forall i :: 0 <= i < |actions| && actions[i].Send? ==> actions[i].now + Interval(c) <= now
  }

  ghost predicate Paced(c: Config, actions: seq<Action>) {
    forall i :: 0 <= i < |actions| && actions[i].Send? ==> Waited(c, actions[..i], actions[i].now)
  }

  lemma PacedSend(c: Config, actions: seq<Action>, action: Action)
    requires Paced(c, actions) && (action.Send? ==> Waited(c, actions, action.now))
    ensures Paced(c, actions + [action])
  {
    var longer := actions + [action];
    forall i | 0 <= i < |longer| && longer[i].Send?
      ensures Waited(c, longer[..i], longer[i].now)
    {
      assert longer[..i] == actions[..i];
    }
  }

  lemma WaitedSend(c: Config, actions: seq<Action>, action: Action, later: int)
    requires action.Send? && Waited(c, actions, action.now) && action.now + Interval(c) <= later
    ensures Waited(c, actions + [action], later)
  {
  }

  /** The counter of requests follows their number, and stays within the number of requests to send. */
  lemma RequestCounts(c: Config, repaired: bool, s: State, now: int, memory: bool, sendOk: bool, sends: nat)
    requires s.counters.send == sends % TWO32
    requires c.echoNum != 0 ==> sends <= c.echoNum && s.counters.send < c.echoNum
    ensures SendNext(c, repaired, s, now, memory, sendOk).counters.send == (sends + 1) % TWO32
    ensures c.echoNum != 0 ==> sends + 1 <= c.echoNum
  {
    hide SendNext;
    SendAppends(c, repaired, s, now, memory, sendOk);
  }

  lemma WaitedPoll(c: Config, actions: seq<Action>, action: Action, later: int)
    requires action.Read?
    ensures Waited(c, actions, later) ==> Waited(c, actions + [action], later)
  {
  }

  lemma WaitedLonger(c: Config, actions: seq<Action>, now: int, later: int)
    requires now <= later
    ensures Waited(c, actions, now) ==> Waited(c, actions, later)
  {
  }

  /** What the loops of the engine are sure of when they begin. */
  lemma NothingYet(c: Config, repaired: bool, timeout: u32, now: int)
    ensures Run(c, repaired, timeout, []) == Start(timeout) && Paced(c, []) && Waited(c, [], now)
  {
  }

  lemma RunOneMore(c: Config, repaired: bool, timeout: u32, actions: seq<Action>, action: Action)
    ensures Run(c, repaired, timeout, actions + [action]) ==
            Next(c, repaired, Run(c, repaired, timeout, actions), action)
    ensures Sends(actions + [action]) == Sends(actions) + if action.Send? then 1 else 0
  {
    assert (actions + [action])[..|actions|] == actions;
  }

  /** A clock that does not go back. */
  ghost predicate Monotone(clock: nat -> int) {
    forall i, j :: 0 <= i <= j ==> clock(i) <= clock(j)
  }

  /** The outcome of every request and every wait, by the number of clock readings before it. */
  datatype World = World(
    clock: nat -> int, memory: nat -> bool, sendOk: nat -> bool, poll: nat -> ReadOutcome, stop: nat)

  // ----- What the world makes the engine do -----

  /** How often the clock was read for these actions: three times for a request, and twice for a wait. */
  function Readings(actions: seq<Action>): (n: nat)
    ensures actions != [] ==> n >= 2
  {
    if actions == [] then 0
    else Readings(actions[..|actions| - 1]) + if actions[|actions| - 1].Send? then 3 else 2
  }

  /** The reading with which the last request began. */
  function LastSend(actions: seq<Action>): nat {
    if actions == [] then 0
    else if actions[|actions| - 1].Send? then Readings(actions[..|actions| - 1])
    else LastSend(actions[..|actions| - 1])
  }

  /** At the last reading: how long it is until one interval after the reference time of the last request. */
  function TimeLeft(c: Config, w: World, actions: seq<Action>): int
    requires actions != []
  {
    w.clock(LastSend(actions) + 1) + Interval(c) - w.clock(Readings(actions) - 1)
  }

  /** This is what the engine does after these actions, in this world. */
  predicate GoesOn(c: Config, repaired: bool, timeout: u32, w: World, actions: seq<Action>, action: Action) {
    var s, t := Run(c, repaired, timeout, actions), Readings(actions);
    && s.intact && s.running
    && match action
       case Send(now, memory, sendOk) =>
         && t < w.stop && (c.echoNum == 0 || s.counters.send < c.echoNum)
         && (actions == [] || TimeLeft(c, w, actions) <= 0)
         && now == w.clock(t) && memory == w.memory(t) && sendOk == w.sendOk(t)
       case Read(outcome, timeLeft, readDelay) =>
         && actions != [] && (actions[|actions| - 1].Send? || t < w.stop)
         && timeLeft == TimeLeft(c, w, actions) > 0
         && outcome == w.poll(t)
         && readDelay == if s.pending != [] then s.pending[0].due - w.clock(t) else Interval(c)
  }

  predicate Follows(c: Config, repaired: bool, timeout: u32, w: World, actions: seq<Action>) {
    actions == [] ||
    var before, last := actions[..|actions| - 1], actions[|actions| - 1];
    Follows(c, repaired, timeout, w, before) && GoesOn(c, repaired, timeout, w, before, last)
  }

  lemma FollowsOn(c: Config, repaired: bool, timeout: u32, w: World, actions: seq<Action>, action: Action)
    requires Follows(c, repaired, timeout, w, actions) && GoesOn(c, repaired, timeout, w, actions, action)
    ensures Follows(c, repaired, timeout, w, actions + [action])
    ensures Readings(actions + [action]) == Readings(actions) + if action.Send? then 3 else 2
    ensures LastSend(actions + [action]) == if action.Send? then Readings(actions) else LastSend(actions)
  {
    hide GoesOn, Run;
    assert (actions + [action])[..|actions|] == actions;
  }

  /** The world leaves the engine no choice: there is one run of each length at most. */
  lemma {:induction false} OnlyRun(
    c: Config, repaired: bool, timeout: u32, w: World, one: seq<Action>, other: seq<Action>)
    requires Follows(c, repaired, timeout, w, one) && Follows(c, repaired, timeout, w, other) && |one| == |other|
    ensures one == other
  {
    hide Run, Readings, LastSend;
    if one != [] {
      var last := |one| - 1;
      OnlyRun(c, repaired, timeout, w, one[..last], other[..last]);
      assert one == one[..last] + [one[last]] && other == other[..last] + [other[last]];
    }
  }

  /** Whatever makes a pass of the read loop return anything but success stops the engine. */
  lemma FailureStops(c: Config, s: State, outcome: ReadOutcome, timeLeft: int, readDelay: int)
    ensures
      var (after, result) := ReadNext(c, s, outcome, timeLeft, readDelay);
      result != Success ==> !after.running
  {
    hide Without, Find;
  }

  lemma FailedSendStops(c: Config, repaired: bool, s: State, now: int, memory: bool, sendOk: bool)
    ensures SendResult(memory, sendOk) != Success ==> !SendNext(c, repaired, s, now, memory, sendOk).running
  {
    hide InsertSorted, AllEarlier, EchoTimeout;
  }

  /** What both loops keep of the state and of the run that led to it. */
  ghost predicate Engaged(c: Config, repaired: bool, timeout: u32, w: World, s: State, actions: seq<Action>) {
    && s == Run(c, repaired, timeout, actions) && Paced(c, actions) && Follows(c, repaired, timeout, w, actions)
    && s.counters.send == Sends(actions) % TWO32
    && (c.echoNum != 0 ==> Sends(actions) <= c.echoNum)
  }

  lemma AfterRequest(c: Config, repaired: bool, timeout: u32, w: World, s: State, actions: seq<Action>)
    requires Engaged(c, repaired, timeout, w, s, actions) && s.intact && s.running
    requires Readings(actions) < w.stop && (c.echoNum == 0 || s.counters.send < c.echoNum)
    requires Waited(c, actions, w.clock(Readings(actions))) && (actions == [] || TimeLeft(c, w, actions) <= 0)
    ensures
      var t := Readings(actions);
      var (now, memory, sendOk) := (w.clock(t), w.memory(t), w.sendOk(t));
      var (next, longer) := (SendNext(c, repaired, s, now, memory, sendOk), actions + [Send(now, memory, sendOk)]);
      && Engaged(c, repaired, timeout, w, next, longer)
      && Readings(longer) == t + 3 && LastSend(longer) == t
      && (SendResult(memory, sendOk) != Success ==> !next.running)
  {
    hide SendNext, Waited, Paced, Run, Follows, TimeLeft, Sends, Readings, LastSend, Next;
    var t := Readings(actions);
    var (now, memory, sendOk) := (w.clock(t), w.memory(t), w.sendOk(t));
    var request := Send(now, memory, sendOk);
    PacedSend(c, actions, request);
    RunOneMore(c, repaired, timeout, actions, request);
    FollowsOn(c, repaired, timeout, w, actions, request);
    RequestCounts(c, repaired, s, now, memory, sendOk, Sends(actions));
    FailedSendStops(c, repaired, s, now, memory, sendOk);
    NextIs(c, repaired, s, request);
  }

  lemma NextIs(c: Config, repaired: bool, s: State, action: Action)
    requires s.intact
    ensures Next(c, repaired, s, action) == match action
                                            case Send(now, memory, sendOk) =>
                                              SendNext(c, repaired, s, now, memory, sendOk)
                                            case Read(outcome, timeLeft, readDelay) =>
                                              ReadNext(c, s, outcome, timeLeft, readDelay).0
  {
    hide SendNext, ReadNext;
  }

  lemma AfterPoll(c: Config, repaired: bool, timeout: u32, w: World, s: State, actions: seq<Action>)
    requires Engaged(c, repaired, timeout, w, s, actions) && s.intact && s.running
    requires actions != [] && (actions[|actions| - 1].Send? || Readings(actions) < w.stop)
    requires TimeLeft(c, w, actions) > 0
    ensures
      var t, timeLeft := Readings(actions), TimeLeft(c, w, actions);
      var readDelay := if s.pending != [] then s.pending[0].due - w.clock(t) else Interval(c);
      var (next, result) := ReadNext(c, s, w.poll(t), timeLeft, readDelay);
      var longer := actions + [Read(w.poll(t), timeLeft, readDelay)];
      && Engaged(c, repaired, timeout, w, next, longer) && next.intact
      && next.counters.send == s.counters.send && Sends(longer) == Sends(actions)
      && Readings(longer) == t + 2 && LastSend(longer) == LastSend(actions)
      && (result != Success ==> !next.running)
  {
    hide ReadNext, Waited, Paced, Run, Follows, TimeLeft, Sends, Readings, LastSend, Next;
    var t, timeLeft := Readings(actions), TimeLeft(c, w, actions);
    var readDelay := if s.pending != [] then s.pending[0].due - w.clock(t) else Interval(c);
    var poll := Read(w.poll(t), timeLeft, readDelay);
    PacedSend(c, actions, poll);
    RunOneMore(c, repaired, timeout, actions, poll);
    FollowsOn(c, repaired, timeout, w, actions, poll);
    ReadRemovesAtMostOne(c, s, w.poll(t), timeLeft, readDelay);
    FailureStops(c, s, w.poll(t), timeLeft, readDelay);
    NextIs(c, repaired, s, poll);
  }

  /** The run has come to its end: the engine is to stop, the list is broken, or all requests are sent. */
  ghost predicate Ended(c: Config, w: World, s: State, actions: seq<Action>, t: nat) {
    && (s.intact && s.running && t < w.stop ==>
          && c.echoNum != 0 && Sends(actions) == c.echoNum
          && actions != [] && TimeLeft(c, w, actions) <= 0)
    && t == if actions != [] && actions[|actions| - 1].Send? && !(s.intact && s.running) then Readings(actions) - 2
            else Readings(actions)
  }

  /**
   IEE_process after the initial wait of keepalive mode, until it ends by itself, the list breaks, or
   another thread calls IEE_stop, after `stop` readings of the clock. It does what the world makes it do, to
   the end, in t readings of the clock; what it did is a paced run.
   */
  method Process(c: Config, repaired: bool, timeout: u32, w: World)
    returns (s: State, ghost actions: seq<Action>, t: nat)
    requires Monotone(w.clock)
    ensures s == Run(c, repaired, timeout, actions) && Paced(c, actions)
    ensures c.echoNum != 0 ==> Sends(actions) <= c.echoNum
    ensures Follows(c, repaired, timeout, w, actions) && Ended(c, w, s, actions, t)
    ensures w.stop > 0 ==> actions != [] && actions[0] == Send(w.clock(0), w.memory(0), w.sendOk(0))
  {
    hide SendNext, Waited, Engaged, TimeLeft, Run, Follows, Sends, Paced, Readings, LastSend;
    s, actions, t := Start(timeout), [], 0;
    Engages(c, repaired, timeout, w);
    while s.intact && s.running && t < w.stop && (c.echoNum == 0 || s.counters.send < c.echoNum)
      invariant Engaged(c, repaired, timeout, w, s, actions) && t == Readings(actions)
      invariant s.intact && s.running && t < w.stop ==> Waited(c, actions, w.clock(t))
      invariant actions == [] ==> s == Start(timeout)
      invariant actions != [] && s.intact && s.running && t < w.stop ==> TimeLeft(c, w, actions) <= 0
      invariant actions != [] && actions[|actions| - 1].Send? ==> s.intact && s.running
      decreases w.stop - t
    {
      var now := w.clock(t);
      ghost var before := actions;
      ghost var request := Send(now, w.memory(t), w.sendOk(t));
      AfterRequest(c, repaired, timeout, w, s, actions);
      var result := SendResult(w.memory(t), w.sendOk(t));
      s := SendNext(c, repaired, s, now, w.memory(t), w.sendOk(t));
      actions := actions + [request];
      if result != Success || !s.intact || !s.running {
        t := t + 1;
        IsRun(c, repaired, timeout, w, s, actions);
        return;
      }
      var deadline := w.clock(t + 1) + Interval(c);
      WaitedSend(c, before, request, deadline);
      s, result, t, actions := ReadWrap(c, repaired, timeout, w, s, deadline, t + 2, actions);
      if result != Success {
        IsRun(c, repaired, timeout, w, s, actions);
        return;
      }
    }
    IsRun(c, repaired, timeout, w, s, actions);
  }

  lemma Engages(c: Config, repaired: bool, timeout: u32, w: World)
    ensures Engaged(c, repaired, timeout, w, Start(timeout), []) && Waited(c, [], w.clock(0)) && Readings([]) == 0
  {
  }

  lemma IsRun(c: Config, repaired: bool, timeout: u32, w: World, s: State, actions: seq<Action>)
    requires Engaged(c, repaired, timeout, w, s, actions)
    ensures s == Run(c, repaired, timeout, actions) && Paced(c, actions) && Follows(c, repaired, timeout, w, actions)
    ensures c.echoNum != 0 ==> Sends(actions) <= c.echoNum
    ensures s.counters.send == Sends(actions) % TWO32
    ensures c.echoNum != 0 && s.counters.send >= c.echoNum ==> Sends(actions) == c.echoNum
    ensures actions != [] ==> actions[0] == Send(w.clock(0), w.memory(0), w.sendOk(0))
  {
    hide Run, Paced, Follows, Sends;
    if actions != [] {
      FirstAction(c, repaired, timeout, w, actions);
    }
  }

  lemma {:induction false} FirstAction(c: Config, repaired: bool, timeout: u32, w: World, actions: seq<Action>)
    requires actions != [] && Follows(c, repaired, timeout, w, actions)
    ensures actions[0] == Send(w.clock(0), w.memory(0), w.sendOk(0))
  {
    hide Run;
    var before := actions[..|actions| - 1];
    if before != [] {
      FirstAction(c, repaired, timeout, w, before);
    } else {
      assert Readings(before) == 0;
    }
  }

  /** _do_read_wrap: it waits until the deadline, unless the engine is to stop. */
  method ReadWrap(c: Config, repaired: bool, timeout: u32, w: World, s0: State, deadline: int, t0: nat,
                  ghost before: seq<Action>)
    returns (s: State, result: Result, t: nat, ghost actions: seq<Action>)
    requires Monotone(w.clock) && Engaged(c, repaired, timeout, w, s0, before) && s0.intact && s0.running
    requires before != [] && before[|before| - 1].Send?
    requires t0 == Readings(before) - 1 && deadline == w.clock(LastSend(before) + 1) + Interval(c)
    ensures Engaged(c, repaired, timeout, w, s, actions) && s.intact && t0 < t == Readings(actions)
    ensures Sends(actions) == Sends(before) && s.counters.send == s0.counters.send
    ensures before <= actions && forall i :: |before| <= i < |actions| ==> actions[i].Read?
    ensures Waited(c, before, deadline) && s.running && t < w.stop ==> Waited(c, actions, w.clock(t))
    ensures s.running && t < w.stop ==> TimeLeft(c, w, actions) <= 0
    ensures actions == before ==> s == s0
    ensures result != Success ==> !s.running
  {
    hide ReadNext, Waited, Engaged;
    s, result, t, actions := s0, Success, t0 + 1, before;
    var timeLeft := deadline - w.clock(t0);
    if timeLeft <= 0 {
      WaitedLonger(c, before, deadline, w.clock(t));
      return;
    }
    while true
      invariant Engaged(c, repaired, timeout, w, s, actions) && s.intact && s.running && t0 < t == Readings(actions)
      invariant Sends(actions) == Sends(before) && s.counters.send == s0.counters.send
      invariant before <= actions && forall i :: |before| <= i < |actions| ==> actions[i].Read?
      invariant Waited(c, before, deadline) ==> Waited(c, actions, deadline)
      invariant LastSend(actions) == LastSend(before) && timeLeft == TimeLeft(c, w, actions) > 0
      invariant actions == before || t < w.stop
      decreases w.stop - t
    {
      var readDelay := if s.pending != [] then s.pending[0].due - w.clock(t) else Interval(c);
      ghost var poll := Read(w.poll(t), timeLeft, readDelay);
      AfterPoll(c, repaired, timeout, w, s, actions);
      var (after, r) := ReadNext(c, s, w.poll(t), timeLeft, readDelay);
      s, result := after, r;
      WaitedPoll(c, actions, poll, deadline);
      actions := actions + [poll];
      timeLeft := deadline - w.clock(t + 1);
      t := t + 2;
      if timeLeft <= 0 || !s.running || t >= w.stop {
        if timeLeft <= 0 {
          WaitedLonger(c, actions, deadline, w.clock(t));
        }
        return;
      }
    }
  }

  // ----- When the list can break -----

  /** Some request was sent exactly one interval after an earlier one. */
  ghost predicate Tie(c: Config, actions: seq<Action>) {
    exists i, j :: 0 <= i < j < |actions| && actions[i].Send? && actions[j].Send? &&
                   actions[j].now == actions[i].now + Interval(c)
  }

  lemma UntiedIsApart(c: Config, actions: seq<Action>)
    requires Paced(c, actions)
    requires c.mode == Acd ==> !Tie(c, actions)
    requires c.mode != Acd ==> c.sendInterval > 0
    ensures Apart(c, actions)
  {
    forall i | 0 <= i < |actions| && actions[i].Send?
      ensures LongBefore(c, actions[..i], actions[i].now)
    {
      assert Waited(c, actions[..i], actions[i].now);
      forall k | 0 <= k < i && actions[k].Send?
        ensures actions[k].now + Gap(c) < actions[i].now
      {
        assert actions[..i][k] == actions[k];
      }
    }
  }

  /**
   So outside ACD mode, with any interval above zero, the list as written never breaks; in ACD mode it can
   break only when a request is sent to the microsecond one interval after another one.
   */
  lemma BreaksOnlyOnATie(c: Config, timeout: u32, actions: seq<Action>)
    requires Paced(c, actions)
    requires c.mode != Acd ==> c.sendInterval > 0
    requires c.mode == Acd ==> !Tie(c, actions)
    ensures Run(c, false, timeout, actions).intact
    ensures Run(c, false, timeout, actions) == Run(c, true, timeout, actions)
  {
    hide Run, Punctual, Tracks;
    UntiedIsApart(c, actions);
    SpacedRunsArePunctual(c, timeout, actions);
    PunctualRunsAreIntact(c, timeout, actions);
  }

  /** Such a tie does break it, whatever the interval, the number of requests and the time. */
  lemma TieBreaksAcd(c: Config, timeout: u32, now: int)
    requires c.mode == Acd && AcdFits(c, 2)
    ensures
      var actions := [Send(now, true, true), Send(now + Interval(c), true, true)];
      Tie(c, actions) && !Run(c, false, timeout, actions).intact
  {
    hide Run, EchoTimeout, AcdFits, InsertSorted, SendNext;
    var (first, second) := (Send(now, true, true), Send(now + Interval(c), true, true));
    assert [first, second][1].now == [first, second][0].now + Interval(c);
    NothingYet(c, false, timeout, now);
    RunOneMore(c, false, timeout, [], first);
    RunOneMore(c, false, timeout, [first], second);
    assert [] + [first] == [first] && [first] + [second] == [first, second];
    var s0 := Start(timeout);
    var s1 := SendNext(c, false, s0, now, true, true);
    SendAppends(c, false, s0, now, true, true);
    SendAppends(c, false, s1, second.now, true, true);
    SameDue(c, timeout, s1.echoTimeout, now);
    assert s1.pending[0].due == DueOf(c, timeout, 0, now);
  }

  lemma SameDue(c: Config, timeout: u32, later: u32, now: int)
    requires c.mode == Acd && AcdFits(c, 2)
    ensures DueOf(c, timeout, 0, now) == DueOf(c, later, 1, now + Interval(c))
  {
    hide EchoTimeout;
    AcdTimeout(c, timeout, 1);
    AcdTimeout(c, later, 2);
    Distribute(c.sendInterval, c.echoNum - 2);
  }
}
