/**
 The engine of icmp_echo_engine.c on the heap: a singly linked list of pending echo events, walked
 through a pointer to a pointer, and the counters around it. Every method is proved against the
 functions of EchoRun.
 */
module EchoEngine {
  import opened Bytes
  import opened EchoRun

  datatype Timeval = Timeval(sec: int, usec: int)

  function Micros(tv: Timeval): int {
    1_000_000 * tv.sec + tv.usec
  }

  /** The sign of _compare_tv, in exact microseconds. */
  predicate Later(a: Timeval, b: Timeval) {
    1000 * 1000 * (a.sec - b.sec) + (a.usec - b.usec) > 0
  }

  class Event {
    var echoSeq: nat
    var timeout: Timeval
    var next: Event?

    constructor (echoSeq: nat, timeout: Timeval)
      ensures this.echoSeq == echoSeq && this.timeout == timeout && next == null
    {
      this.echoSeq, this.timeout, next := echoSeq, timeout, null;
    }
  }

  /** The events are what one meets by following next pointers from the head to a null pointer. */
  ghost predicate IsChain(head: Event?, events: seq<Event>)
    reads events
  {
    && (head == if events == [] then null else events[0])
    && (forall i {:trigger events[i].next} :: 0 <= i < |events| ==>
          events[i].next == if i + 1 < |events| then events[i + 1] else null)
    && (forall i, j :: 0 <= i < j < |events| ==> events[i] != events[j])
  }

  ghost predicate Holds(events: seq<Event>, contents: seq<Pending>)
    reads events
  {
    && |events| == |contents|
    && forall i {:trigger contents[i]} {:trigger events[i]} :: 0 <= i < |events| ==>
         contents[i] == Pending(events[i].echoSeq, Micros(events[i].timeout))
  }

  /** A chain begins with the events that are linked from its head. */
  lemma {:induction false} ChainFollows(head: Event?, linked: seq<Event>, k: nat, events: seq<Event>)
    requires k < |linked| && head == linked[0]
    requires forall i {:trigger linked[i].next} :: 0 <= i < k ==> linked[i].next == linked[i + 1]
    requires IsChain(head, events)
    ensures k < |events| && forall i :: 0 <= i <= k ==> events[i] == linked[i]
  {
    if k > 0 {
      ChainFollows(head, linked, k - 1, events);
      assert linked[k - 1].next == linked[k];
      assert events[k - 1].next == linked[k];
    }
  }

  class Engine {
    const config: Config
    var echoTimeout: u32
    var countSend: u32
    var countOntime: u32
    var countLate: u32
    var countConsecLate: nat
    /** eng_ongoing, and IEE_process has not left its loop on an error. */
    var running: bool
    var eventList: Event?
    ghost var events: seq<Event>
    ghost var contents: seq<Pending>
    ghost var starved: nat

    ghost predicate Valid()
      reads this`eventList, this`events, this`contents, events
    {
      IsChain(eventList, events) && Holds(events, contents)
    }

    /** The engine as a state of EchoRun. */
    ghost function Abstract(): State
      reads this
    {
      State(contents, true, echoTimeout, Counters(countSend, countOntime, countLate, countConsecLate), starved, running)
    }

    constructor (config: Config, timeout: u32)
      ensures Valid() && Abstract() == Start(timeout) && this.config == config
    {
      this.config, echoTimeout := config, timeout;
      countSend, countOntime, countLate, countConsecLate := 0, 0, 0, 0;
      running, eventList, events, contents, starved := true, null, [], [], 0;
    }

    /** _compute_echo_timeout. The loop moves whole seconds out of the microseconds, and loses none. */
    method ComputeEchoTimeout(sent: Timeval) returns (due: Timeval)
      modifies this`echoTimeout
      ensures echoTimeout == EchoTimeout(config, old(echoTimeout), countSend)
      ensures Micros(due) == DueTime(Micros(sent), echoTimeout) == Micros(sent) + 1000 * echoTimeout
      ensures due.usec <= 1_000_000
      ensures 0 <= sent.usec ==> 0 <= due.usec
    {
      if config.mode == Acd {
        echoTimeout := config.sendInterval * ((config.echoNum - countSend) % TWO32) % TWO32;
      }
      var sec, usec := sent.sec + echoTimeout / 1000, sent.usec + echoTimeout % 1000 * 1000;
      while usec > 1_000_000
        invariant Micros(Timeval(sec, usec)) == DueTime(Micros(sent), echoTimeout)
        invariant 0 <= sent.usec ==> 0 <= usec
      {
        usec := usec - 1_000_000;
        sec := sec + 1;
      }
      due := Timeval(sec, usec);
    }

    /** The pointer to a pointer of the source: the link after `prev`, or the head of the list. */
    method Seek(e: Event) returns (ghost k: nat, prev: Event?, cur: Event?)
      requires Valid() && e !in events
      ensures k == InsertionPoint(contents, Micros(e.timeout))
      ensures prev == if k == 0 then null else events[k - 1]
      ensures cur == if k == |events| then null else events[k]
    {
      hide InsertionPoint, InsertionPointFrom;
      prev, cur := null, eventList;
      k := 0;
      while cur != null && Later(e.timeout, cur.timeout)
        invariant k <= |events|
        invariant prev == if k == 0 then null else events[k - 1]
        invariant cur == if k == |events| then null else events[k]
        invariant forall i :: 0 <= i < k ==> contents[i].due < Micros(e.timeout)
        decreases |events| - k
      {
        assert cur == events[k] && contents[k] == Pending(cur.echoSeq, Micros(cur.timeout));
        assert events[k].next == if k + 1 < |events| then events[k + 1] else null;
        prev, cur := cur, cur.next;
        k := k + 1;
      }
      assert k < |events| ==> contents[k] == Pending(events[k].echoSeq, Micros(events[k].timeout));
      PointIs(contents, Micros(e.timeout), k);
    }

    /**
     _insert_echo_event as written. An event due strictly later than all others is appended. Any other
     event ends up in a cycle with the event it should precede, and the list no longer reaches an end.
     */
    method InsertEvent(e: Event)
      requires Valid() && e !in events && e.next == null
      modifies this`eventList, this`events, this`contents, events`next, e`next
      ensures Valid() <==> AllEarlier(old(contents), Micros(e.timeout))
      ensures Valid() ==> events == old(events) + [e]
      ensures Valid() ==> contents == old(contents) + [Pending(e.echoSeq, Micros(e.timeout))]
      ensures !Valid() ==> forall chain: seq<Event> :: !IsChain(eventList, chain)
      ensures !Valid() ==> contents == old(contents)
    {
      ghost var due := Micros(e.timeout);
      var k, prev, cur := Seek(e);
      if cur == null {
        if prev == null { eventList := e; } else { prev.next := e; }
        e.next := null;
        events, contents := events + [e], contents + [Pending(e.echoSeq, due)];
      } else {
        e.next := cur;
        cur.next := e;
        Cyclic(e, k);
      }
    }

    /** After `k` events the list goes from `cur` to `e` and back, so nothing is a chain from its head. */
    lemma Cyclic(e: Event, k: nat)
      requires k < |events| && e !in events
      requires eventList == events[0] && events[k].next == e && e.next == events[k]
      requires forall i {:trigger events[i].next} :: 0 <= i < k ==> events[i].next == events[i + 1]
      ensures forall chain: seq<Event> :: !IsChain(eventList, chain)
    {
      forall chain: seq<Event>
        ensures !IsChain(eventList, chain)
      {
        if IsChain(eventList, chain) {
          ChainFollows(eventList, events, k, chain);
        }
      }
    }

    /** What was meant: the new event takes the place of the one it should precede. */
    method InsertSortedEvent(e: Event)
      requires Valid() && e !in events && e.next == null
      modifies this`eventList, this`events, this`contents, events`next, e`next
      ensures Valid()
      ensures contents == InsertSorted(old(contents), Pending(e.echoSeq, Micros(e.timeout)))
    {
      hide InsertSorted, InsertionPoint;
      ghost var p := Pending(e.echoSeq, Micros(e.timeout));
      var k, prev, cur := Seek(e);
      ghost var (before, held) := (events, contents);
      events, contents := before[..k] + [e] + before[k..], held[..k] + [p] + held[k..];
      IsInsertSorted(held, p);
      e.next := cur;
      if prev == null { eventList := e; } else { prev.next := e; }
      assert forall i {:trigger before[i].next} :: 0 <= i < k - 1 || k <= i < |before| ==>
          before[i].next == if i + 1 < |before| then before[i + 1] else null;
      Spliced(eventList, before, held, e, k);
    }

    /** _remove_free_echo_event. */
    method RemoveEvent(echoSeq: nat) returns (removed: bool)
      requires Valid()
      modifies this`eventList, this`events, this`contents, events`next
      ensures Valid()
      ensures contents == Without(old(contents), echoSeq)
      ensures removed <==> Find(old(contents), echoSeq) < |old(contents)|
    {
      hide Without, Find;
      var prev: Event?, cur := null, eventList;
      ghost var k := 0;
      while cur != null && cur.echoSeq != echoSeq
        invariant k <= |events|
        invariant prev == if k == 0 then null else events[k - 1]
        invariant cur == if k == |events| then null else events[k]
        invariant forall i :: 0 <= i < k ==> contents[i].echoSeq != echoSeq
        decreases |events| - k
      {
        assert events[k].next == if k + 1 < |events| then events[k + 1] else null;
        prev, cur := cur, cur.next;
        k := k + 1;
      }
      removed := cur != null;
      FirstMatch(contents, echoSeq, k);
      if removed {
        assert events[k].next == if k + 1 < |events| then events[k + 1] else null;
        ghost var (before, held) := (events, contents);
        events, contents := before[..k] + before[k + 1..], held[..k] + held[k + 1..];
        if prev == null { eventList := cur.next; } else { prev.next := cur.next; }
        assert forall i {:trigger before[i].next} :: 0 <= i < |before| && i != k - 1 ==>
            before[i].next == if i + 1 < |before| then before[i + 1] else null;
        Unlinked(eventList, before, held, k);
      }
    }

    /** _do_send, as written. */
    method Send(now: Timeval, memory: bool, sendOk: bool) returns (result: Result)
      requires Valid()
      modifies this, events`next
      ensures Valid() <==> SendNext(config, false, old(Abstract()), Micros(now), memory, sendOk).intact
      ensures Valid() ==> Abstract() == SendNext(config, false, old(Abstract()), Micros(now), memory, sendOk)
      ensures result == SendResult(memory, sendOk)
    {
      hide EchoTimeout, InsertSorted, AllEarlier, IsChain, Holds;
      var echoSeq := countSend % 0x1_0000;
      countSend := (countSend + 1) % TWO32;
      result := SendResult(memory, sendOk);
      if !memory {
        starved := starved + 1;
        running := false;
        return;
      }
      var due := ComputeEchoTimeout(now);
      var e := new Event(echoSeq, due);
      InsertEvent(e);
      running := running && sendOk;
    }

    /** The switch of _do_read_wrap. */
    method Switch(outcome: ReadOutcome, timeLeft: int, readDelay: int) returns (result: Result)
      requires Valid()
      modifies this, events`next
      ensures Valid()
      ensures (Abstract(), result) == ReadSwitch(config, old(Abstract()), outcome, timeLeft, readDelay)
    {
      hide Without, Find, IsChain, Holds;
      result := Success;
      match outcome {
        case PacketBad =>
        case PacketIgnored =>
        case SelectTimeout =>
          if timeLeft > readDelay {
            HeadTimesOut();
          }
        case PingInOnTime(echoSeq) =>
          ReplyInTime(echoSeq);
          if config.mode == Acd {
            running := false;
            result := ConnectivityAssessed;
          }
          LastReplyIn();
        case PingInLate =>
          LastReplyIn();
        case SocketClosed =>
          running := false;
        case ReadError =>
          running := false;
          result := GeneralError;
      }
    }

    /** One pass of the loop of _do_read_wrap: the switch, and the check of the threshold after it. */
    method Read(outcome: ReadOutcome, timeLeft: int, readDelay: int) returns (result: Result)
      requires Valid()
      modifies this, events`next
      ensures Valid()
      ensures (Abstract(), result) == ReadNext(config, old(Abstract()), outcome, timeLeft, readDelay)
    {
      hide ReadSwitch, IsChain, Holds;
      result := Switch(outcome, timeLeft, readDelay);
      if countConsecLate >= config.threshold {
        result := GeneralTimeout;
        running := false;
      }
    }

    /** The event that is due first, if there is one, has timed out. */
    method HeadTimesOut()
      requires Valid()
      modifies this`countLate, this`countConsecLate, this`eventList, this`events, this`contents, events`next
      ensures Valid()
      ensures Abstract() ==
              if old(contents) == [] then old(Abstract())
              else
                var k := old(Abstract()).counters;
                old(Abstract()).(pending := Without(old(contents), old(contents)[0].echoSeq),
                                 counters := k.(late := (k.late + 1) % TWO32, consecLate := (k.consecLate + 1) % 0x100))
    {
      hide Without, Find;
      if eventList != null {
        countLate := (countLate + 1) % TWO32;
        countConsecLate := (countConsecLate + 1) % 0x100;
        var _ := RemoveEvent(eventList.echoSeq);
      }
    }

    /** A reply in time; if its event has already timed out, that is taken back. */
    method ReplyInTime(echoSeq: nat)
      requires Valid()
      modifies this`countLate, this`countConsecLate, this`countOntime
      modifies this`eventList, this`events, this`contents, events`next
      ensures Valid()
      ensures
        var k := old(Abstract()).counters;
        var found := Find(old(contents), echoSeq) < |old(contents)|;
        Abstract() == old(Abstract()).(pending := Without(old(contents), echoSeq),
          counters := k.(ontime := (k.ontime + 1) % TWO32, consecLate := 0,
                         late := if found then k.late else (k.late - 1) % TWO32))
    {
      hide Without, Find;
      countConsecLate := 0;
      countOntime := (countOntime + 1) % TWO32;
      var removed := RemoveEvent(echoSeq);
      if !removed {
        countLate := (countLate - 1) % TWO32;
      }
    }

    /** Where the case of an on-time reply falls through to. */
    method LastReplyIn()
      modifies this`running
      ensures running <==> old(running) && !(config.echoNum != 0 && countSend >= config.echoNum)
    {
      if config.echoNum != 0 && countSend >= config.echoNum {
        running := false;
      }
    }
  }

  /** A chain with one more event linked in at position k. */
  lemma Spliced(head: Event?, events: seq<Event>, contents: seq<Pending>, e: Event, k: nat)
    requires k <= |events| && Holds(events, contents) && e !in events
    requires forall i, j :: 0 <= i < j < |events| ==> events[i] != events[j]
    requires forall i {:trigger events[i].next} :: 0 <= i < k - 1 || k <= i < |events| ==>
               events[i].next == if i + 1 < |events| then events[i + 1] else null
    requires e.next == if k == |events| then null else events[k]
    requires if k == 0 then head == e else head == events[0] && events[k - 1].next == e
    ensures IsChain(head, events[..k] + [e] + events[k..])
    ensures Holds(events[..k] + [e] + events[k..],
                  contents[..k] + [Pending(e.echoSeq, Micros(e.timeout))] + contents[k..])
  {
    var events' := events[..k] + [e] + events[k..];
    forall i {:trigger events'[i].next} | 0 <= i < |events'|
      ensures events'[i].next == if i + 1 < |events'| then events'[i + 1] else null
    {
      if i < k {
        assert events[i].next == events'[i].next;
      } else if i > k {
        assert events[i - 1].next == events'[i].next;
      }
    }
  }

  /** A chain without the event at position k. */
  lemma Unlinked(head: Event?, events: seq<Event>, contents: seq<Pending>, k: nat)
    requires k < |events| && Holds(events, contents)
    requires forall i, j :: 0 <= i < j < |events| ==> events[i] != events[j]
    requires forall i {:trigger events[i].next} :: 0 <= i < |events| && i != k - 1 ==>
               events[i].next == if i + 1 < |events| then events[i + 1] else null
    requires if k == 0 then head == events[k].next else head == events[0] && events[k - 1].next == events[k].next
    ensures IsChain(head, events[..k] + events[k + 1..])
    ensures Holds(events[..k] + events[k + 1..], contents[..k] + contents[k + 1..])
  {
    var rest := events[..k] + events[k + 1..];
    assert events[k].next == if k + 1 < |events| then events[k + 1] else null;
    forall i {:trigger rest[i].next} | 0 <= i < |rest|
      ensures rest[i].next == if i + 1 < |rest| then rest[i + 1] else null
    {
      if i < k {
        assert events[i].next == rest[i].next;
      } else {
        assert events[i + 1].next == rest[i].next;
      }
    }
  }

  lemma PointIs(pending: seq<Pending>, due: int, k: nat)
    requires k <= |pending| && (forall i :: 0 <= i < k ==> pending[i].due < due)
    requires k < |pending| ==> due <= pending[k].due
    ensures k == InsertionPoint(pending, due)
  {
  }

  lemma IsInsertSorted(pending: seq<Pending>, e: Pending)
    ensures
      var k := InsertionPoint(pending, e.due);
      InsertSorted(pending, e) == pending[..k] + [e] + pending[k..]
  {
  }

  lemma FirstMatch(pending: seq<Pending>, echoSeq: nat, k: nat)
    requires k <= |pending| && (forall i :: 0 <= i < k ==> pending[i].echoSeq != echoSeq)
    requires k < |pending| ==> pending[k].echoSeq == echoSeq
    ensures k == Find(pending, echoSeq)
    ensures Without(pending, echoSeq) == if k < |pending| then pending[..k] + pending[k + 1..] else pending
  {
  }
}
