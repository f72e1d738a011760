/**
 How servermsgsender.cc lays out tunnel records, broker lists and device mappings in a message, and how
 clientmsgtranslator.cc takes them apart again. Native integers are little-endian, int and the
 enumerations take 4 octets, time_t takes 8.
 */
module MessageCodec {
  import opened Bytes
  import opened Wrappers
  import opened Messages

  type i32 = x: int | -0x8000_0000 <= x < 0x8000_0000
  type i64 = x: int | -0x8000_0000_0000_0000 <= x < 0x8000_0000_0000_0000

  const MESSAGEID_TUNNELINFO: u16 := 0x0102
  const MESSAGEID_BROKERLIST: u16 := 0x0103
  const MESSAGEID_HACCESSSTATUSINFO: u16 := 0x0104

  /** A value and the cursor after it. */
  datatype Taken<+T> = Taken(value: T, cursor: nat)

  // ----- Strings and integers -----

  predicate IsText(s: seq<byte>) {
    0 !in s
  }

  /** A C string that may be a null pointer, which is sent like an empty one. */
  type CString = s: Option<seq<byte>> | s.Some? ==> IsText(s.value) witness None

  function Text(s: CString): seq<byte> {
    if s.Some? then s.value else []
  }

  function TextOctets(s: CString): seq<byte> {
    Text(s) + [0]
  }

  function IntOctets(x: i32): (bs: seq<byte>)
    ensures |bs| == 4
  {
    LittleEndian32(x % TWO32)
  }

  function TimeOctets(x: i64): (bs: seq<byte>)
    ensures |bs| == 8
  {
    LittleEndian32(x % TWO32) + LittleEndian32(x / TWO32 % TWO32)
  }

  function Signed32(u: u32): i32 {
    if u < 0x8000_0000 then u else u - TWO32
  }

  function FromIntOctets(bs: seq<byte>): i32
    requires |bs| == 4
  {
    Signed32(FromLittleEndian32(bs))
  }

  function FromTimeOctets(bs: seq<byte>): i64
    requires |bs| == 8
  {
    TWO32 * Signed32(FromLittleEndian32(bs[4..])) + FromLittleEndian32(bs[..4])
  }

  lemma IntRoundTrip(x: i32)
    ensures FromIntOctets(IntOctets(x)) == x
  {
    LittleEndian32RoundTrip(x % TWO32);
  }

  lemma TimeRoundTrip(x: i64)
    ensures FromTimeOctets(TimeOctets(x)) == x
  {
    hide LittleEndian32, FromLittleEndian32;
    var (lo, hi) := (x % TWO32, x / TWO32 % TWO32);
    LittleEndian32RoundTrip(lo);
    LittleEndian32RoundTrip(hi);
    assert TimeOctets(x)[..4] == LittleEndian32(lo) && TimeOctets(x)[4..] == LittleEndian32(hi);
  }

  /** Four octets stand for exactly one integer. */
  lemma IntOctetsAreUnique(bs: seq<byte>)
    requires |bs| == 4
    ensures IntOctets(FromIntOctets(bs)) == bs
  {
    var u := FromLittleEndian32(bs);
    assert Signed32(u) % TWO32 == u;
    OctetsOf(bs);
  }

  lemma OctetsOf(bs: seq<byte>)
    requires |bs| == 4
    ensures LittleEndian32(FromLittleEndian32(bs)) == bs
  {
    var (a, b, c, d) := (bs[0] as int, bs[1] as int, bs[2] as int, bs[3] as int);
    var u := FromLittleEndian32(bs);
    var v := b + 0x100 * c + 0x1_0000 * d;
    var w := c + 0x100 * d;
    assert u == a + 0x100 * v && v == b + 0x100 * w;
    assert u / 0x100 == v && v / 0x100 == w && w / 0x100 == d;
    assert u / 0x1_0000 == v / 0x100 && u / 0x100_0000 == w / 0x100;
  }

  lemma TimeOctetsAreUnique(bs: seq<byte>)
    requires |bs| == 8
    ensures TimeOctets(FromTimeOctets(bs)) == bs
  {
    hide LittleEndian32, FromLittleEndian32;
    var lo, hi := FromLittleEndian32(bs[..4]), Signed32(FromLittleEndian32(bs[4..]));
    var x := FromTimeOctets(bs);
    assert x % TWO32 == lo && x / TWO32 == hi;
    assert hi % TWO32 == FromLittleEndian32(bs[4..]);
    OctetsOf(bs[..4]);
    OctetsOf(bs[4..]);
  }

  // ----- Taking values off the data -----

  /** Nothing if the data ends before the string does. */
  function TakeText(d: seq<byte>, pos: nat): (r: Option<Taken<CString>>)
    ensures r.Some? ==> r.value.value.Some? && r.value.cursor == pos + |TextOctets(r.value.value)|
  {
    if pos > |d| || FirstFrom(d, pos, 0) == |d| then None
    else Some(Taken(Some(d[pos..FirstFrom(d, pos, 0)]), FirstFrom(d, pos, 0) + 1))
  }

  function TakeInt(d: seq<byte>, pos: nat): (r: Option<Taken<i32>>)
    ensures r.Some? ==> r.value.cursor == pos + 4
  {
    if pos + 4 > |d| then None else Some(Taken(FromIntOctets(d[pos..pos + 4]), pos + 4))
  }

  function TakeTime(d: seq<byte>, pos: nat): (r: Option<Taken<i64>>)
    ensures r.Some? ==> r.value.cursor == pos + 8
  {
    if pos + 8 > |d| then None else Some(Taken(FromTimeOctets(d[pos..pos + 8]), pos + 8))
  }

  /** Taking a string is exactly finding its octets. */
  lemma TakesText(d: seq<byte>, pos: nat, s: seq<byte>)
    requires IsText(s)
    ensures TakeText(d, pos) == Some(Taken(Some(s), pos + |s| + 1)) <==> At(d, pos, TextOctets(Some(s)))
  {
    if At(d, pos, TextOctets(Some(s))) {
      AtSplit(d, pos, s, [0]);
      AtOctet(d, pos + |s|, [0], 0);
      FirstFromIs(d, pos, pos + |s|, 0);
    }
    if TakeText(d, pos) == Some(Taken(Some(s), pos + |s| + 1)) {
      assert d[pos..pos + |s| + 1] == s + [0];
    }
  }

  lemma TakesInt(d: seq<byte>, pos: nat, x: i32)
    ensures TakeInt(d, pos) == Some(Taken(x, pos + 4)) <==> At(d, pos, IntOctets(x))
  {
    hide IntOctets, FromIntOctets;
    IntRoundTrip(x);
    if pos + 4 <= |d| {
      IntOctetsAreUnique(d[pos..pos + 4]);
    }
  }

  lemma TakesTime(d: seq<byte>, pos: nat, x: i64)
    ensures TakeTime(d, pos) == Some(Taken(x, pos + 8)) <==> At(d, pos, TimeOctets(x))
  {
    hide TimeOctets, FromTimeOctets;
    TimeRoundTrip(x);
    if pos + 8 <= |d| {
      TimeOctetsAreUnique(d[pos..pos + 8]);
    }
  }

  // ----- Tunnel records -----

  /** gogocTunnelInfo without the DNS address, which is not sent. */
  datatype TunnelInfo = TunnelInfo(
    brokerName: CString, tunnelType: i32, ipv4Local: CString, ipv6Local: CString, ipv4Remote: CString,
    ipv6Remote: CString, delegatedPrefix: CString, userDomain: CString, upTime: i64)

  function TunnelOctets(t: TunnelInfo): seq<byte> {
    (TextOctets(t.brokerName) + IntOctets(t.tunnelType)) +
    (PairOctets(t.ipv4Local, t.ipv6Local) + (PairOctets(t.ipv4Remote, t.ipv6Remote) +
    (PairOctets(t.delegatedPrefix, t.userDomain) + TimeOctets(t.upTime))))
  }

  function PairOctets(a: CString, b: CString): seq<byte> {
    TextOctets(a) + TextOctets(b)
  }

  /** A record octet by octet: strings with their NUL, and numbers with the low-order octet in front. */
  lemma OneRecord()
    ensures
      var t := TunnelInfo(Some([98]), 2, Some([52]), Some([54]), Some([114]), None, Some([112]), Some([117]), -2);
      TunnelOctets(t) ==
        [98, 0, 2, 0, 0, 0] + [52, 0, 54, 0, 114, 0, 0, 112, 0, 117, 0]
        + [0xfe, 0xff, 0xff, 0xff, 0xff, 0xff, 0xff, 0xff]
  {
  }

  /** A null pointer arrives as an empty string. */
  function NotNull(s: CString): (r: CString)
    ensures r.Some? && TextOctets(r) == TextOctets(s)
  {
    Some(Text(s))
  }

  function Received(t: TunnelInfo): TunnelInfo {
    TunnelInfo(NotNull(t.brokerName), t.tunnelType, NotNull(t.ipv4Local), NotNull(t.ipv6Local), NotNull(t.ipv4Remote),
               NotNull(t.ipv6Remote), NotNull(t.delegatedPrefix), NotNull(t.userDomain), t.upTime)
  }

  function TakePair(d: seq<byte>, pos: nat): (r: Option<Taken<(CString, CString)>>)
    ensures r.Some? ==> r.value.cursor == pos + |PairOctets(r.value.value.0, r.value.value.1)|
  {
    var a :- TakeText(d, pos);
    var b :- TakeText(d, a.cursor);
    Some(Taken((a.value, b.value), b.cursor))
  }

  /** A string and an integer, as in every list entry. */
  function TakeEntry(d: seq<byte>, pos: nat): (r: Option<Taken<(CString, i32)>>)
    ensures r.Some? ==> r.value.cursor == pos + |TextOctets(r.value.value.0)| + 4
  {
    var name :- TakeText(d, pos);
    var number :- TakeInt(d, name.cursor);
    Some(Taken((name.value, number.value), number.cursor))
  }

  function TakeTunnel(d: seq<byte>, pos: nat): Option<Taken<TunnelInfo>> {
    var broker :- TakeEntry(d, pos);
    var local :- TakePair(d, broker.cursor);
    var remote :- TakePair(d, local.cursor);
    var delegated :- TakePair(d, remote.cursor);
    var upTime :- TakeTime(d, delegated.cursor);
    Some(Taken(
           TunnelInfo(broker.value.0, broker.value.1, local.value.0, local.value.1, remote.value.0,
                      remote.value.1, delegated.value.0, delegated.value.1, upTime.value),
           upTime.cursor))
  }

  lemma AtJoin(m: seq<byte>, pos: nat, a: seq<byte>, b: seq<byte>)
    requires At(m, pos, a) && At(m, pos + |a|, b)
    ensures At(m, pos, a + b)
  {
  }

  lemma AtParts(m: seq<byte>, pos: nat, a: seq<byte>, b: seq<byte>)
    ensures At(m, pos, a + b) <==> At(m, pos, a) && At(m, pos + |a|, b)
  {
    if At(m, pos, a + b) { AtSplit(m, pos, a, b); }
    if At(m, pos, a) && At(m, pos + |a|, b) { AtJoin(m, pos, a, b); }
  }

  /** What strings are taken for is exactly their octets. */
  lemma TakesString(d: seq<byte>, pos: nat, s: CString)
    ensures At(d, pos, TextOctets(s)) <==> TakeText(d, pos) == Some(Taken(NotNull(s), pos + |TextOctets(s)|))
  {
    TakesText(d, pos, Text(s));
  }

  lemma TakesPair(d: seq<byte>, pos: nat, a: CString, b: CString)
    ensures At(d, pos, PairOctets(a, b)) <==>
            TakePair(d, pos) == Some(Taken((NotNull(a), NotNull(b)), pos + |PairOctets(a, b)|))
    ensures PairOctets(NotNull(a), NotNull(b)) == PairOctets(a, b)
  {
    hide At, TextOctets, TakeText, NotNull;
    AtParts(d, pos, TextOctets(a), TextOctets(b));
    TakesString(d, pos, a);
    TakesString(d, pos + |TextOctets(a)|, b);
  }

  lemma TakesEntry(d: seq<byte>, pos: nat, name: CString, number: i32)
    ensures At(d, pos, TextOctets(name) + IntOctets(number)) <==>
            TakeEntry(d, pos) == Some(Taken((NotNull(name), number), pos + |TextOctets(name)| + 4))
  {
    hide At, TextOctets, IntOctets, TakeText, TakeInt, NotNull;
    AtParts(d, pos, TextOctets(name), IntOctets(number));
    TakesString(d, pos, name);
    TakesInt(d, pos + |TextOctets(name)|, number);
  }

  /** A record is taken from the data, up to null pointers, exactly where its octets are. */
  lemma TakesTunnel(d: seq<byte>, pos: nat, t: TunnelInfo)
    ensures At(d, pos, TunnelOctets(t)) <==> TakeTunnel(d, pos) == Some(Taken(Received(t), pos + |TunnelOctets(t)|))
  {
    hide At, TextOctets, IntOctets, TimeOctets, PairOctets, TakeEntry, TakePair, TakeTime, NotNull;
    var broker := TextOctets(t.brokerName) + IntOctets(t.tunnelType);
    var local := PairOctets(t.ipv4Local, t.ipv6Local);
    var remote := PairOctets(t.ipv4Remote, t.ipv6Remote);
    var delegated := PairOctets(t.delegatedPrefix, t.userDomain);
    var time := TimeOctets(t.upTime);
    var p := pos + |broker|;
    var q := p + |local|;
    var r := q + |remote|;
    AtParts(d, pos, broker, local + (remote + (delegated + time)));
    AtParts(d, p, local, remote + (delegated + time));
    AtParts(d, q, remote, delegated + time);
    AtParts(d, r, delegated, time);
    TakesEntry(d, pos, t.brokerName, t.tunnelType);
    TakesPair(d, p, t.ipv4Local, t.ipv6Local);
    TakesPair(d, q, t.ipv4Remote, t.ipv6Remote);
    TakesPair(d, r, t.delegatedPrefix, t.userDomain);
    TakesTime(d, r + |delegated|, t.upTime);
  }

  // ----- Lists of names and numbers: brokers with distances, device mappings with their status -----

  datatype Entries = End | Entry(name: CString, number: i32, next: Entries)

  function EntriesOctets(e: Entries): seq<byte> {
    match e
    case End => []
    case Entry(name, number, next) => (TextOctets(name) + IntOctets(number)) + EntriesOctets(next)
  }

  function ReceivedEntries(e: Entries): Entries {
    match e
    case End => End
    case Entry(name, number, next) => Entry(NotNull(name), number, ReceivedEntries(next))
  }

  /** The rest of the data as a list. What follows the data in the receive buffer is read when an entry runs on. */
  function TakeEntries(d: seq<byte>, nDataLen: nat, pos: nat): Option<Taken<Entries>>
    requires nDataLen <= |d|
    decreases nDataLen - pos
  {
    if pos >= nDataLen then Some(Taken(End, pos))
    else
      var entry :- TakeEntry(d, pos);
      var rest :- TakeEntries(d, nDataLen, entry.cursor);
      Some(Taken(Entry(entry.value.0, entry.value.1, rest.value), rest.cursor))
  }

  /** A list is rebuilt, with the cursor at the end of the data, exactly if its octets are all there is. */
  lemma {:induction false} TakesEntries(d: seq<byte>, nDataLen: nat, pos: nat, e: Entries)
    requires nDataLen <= |d|
    ensures pos + |EntriesOctets(e)| == nDataLen && At(d, pos, EntriesOctets(e)) <==>
            TakeEntries(d, nDataLen, pos) == Some(Taken(ReceivedEntries(e), nDataLen))
    decreases e
  {
    hide At, TextOctets, IntOctets, TakeEntry, NotNull;
    match e
    case End =>
      NothingAt(d, pos);
    case Entry(name, number, next) =>
      var entry := TextOctets(name) + IntOctets(number);
      AtParts(d, pos, entry, EntriesOctets(next));
      TakesEntry(d, pos, name, number);
      TakesEntries(d, nDataLen, pos + |entry|, next);
  }

  lemma NothingAt(d: seq<byte>, pos: nat)
    ensures At(d, pos, []) <==> pos <= |d|
  {
  }

  /** HACCESSStatusInfo. */
  datatype StatusInfo = StatusInfo(proxy: i32, web: i32, devmapmod: i32, mappings: Entries)

  function StatusOctets(s: StatusInfo): seq<byte> {
    IntOctets(s.proxy) + (IntOctets(s.web) + (IntOctets(s.devmapmod) + EntriesOctets(s.mappings)))
  }

  lemma OneStatus()
    ensures
      StatusOctets(StatusInfo(1, 2, -1, Entry(Some([100]), 4, Entry(None, 5, End)))) ==
        [1, 0, 0, 0, 2, 0, 0, 0, 0xff, 0xff, 0xff, 0xff] + [100, 0, 4, 0, 0, 0] + [0, 5, 0, 0, 0]
  {
  }

  function TakeStatus(d: seq<byte>, nDataLen: nat): Option<Taken<StatusInfo>>
    requires nDataLen <= |d|
  {
    var proxy :- TakeInt(d, 0);
    var web :- TakeInt(d, proxy.cursor);
    var devmapmod :- TakeInt(d, web.cursor);
    var mappings :- TakeEntries(d, nDataLen, devmapmod.cursor);
    Some(Taken(StatusInfo(proxy.value, web.value, devmapmod.value, mappings.value), mappings.cursor))
  }

  lemma TakesStatus(d: seq<byte>, nDataLen: nat, s: StatusInfo)
    requires nDataLen <= |d|
    ensures |StatusOctets(s)| == nDataLen && At(d, 0, StatusOctets(s)) <==>
            TakeStatus(d, nDataLen) == Some(Taken(s.(mappings := ReceivedEntries(s.mappings)), nDataLen))
  {
    hide At, IntOctets, TakeInt, TakeEntries, EntriesOctets;
    var rest := EntriesOctets(s.mappings);
    AtParts(d, 0, IntOctets(s.proxy), IntOctets(s.web) + (IntOctets(s.devmapmod) + rest));
    AtParts(d, 4, IntOctets(s.web), IntOctets(s.devmapmod) + rest);
    AtParts(d, 8, IntOctets(s.devmapmod), rest);
    TakesInt(d, 0, s.proxy);
    TakesInt(d, 4, s.web);
    TakesInt(d, 8, s.devmapmod);
    TakesEntries(d, nDataLen, 12, s.mappings);
  }

  lemma WholeAt(d: seq<byte>, w: seq<byte>)
    ensures d == w <==> |d| == |w| && At(d, 0, w)
  {
  }

  // ----- From one process to the other -----

  /** What is sent in a message is what is received, and the assertion on the cursor holds. */
  lemma TunnelArrives(t: TunnelInfo)
    requires |TunnelOctets(t)| < MSG_MAX_USERDATA
    ensures
      var m := CreateMessage(MESSAGEID_TUNNELINFO, TunnelOctets(t));
      m.Created? && TakeTunnel(Data(m.message), 0) == Some(Taken(Received(t), DataLen(m.message)))
  {
    hide TunnelOctets, TakeTunnel, Received;
    CreatedMessage(MESSAGEID_TUNNELINFO, TunnelOctets(t));
    WholeAt(TunnelOctets(t), TunnelOctets(t));
    TakesTunnel(TunnelOctets(t), 0, t);
  }

  lemma StatusArrives(s: StatusInfo)
    requires |StatusOctets(s)| < MSG_MAX_USERDATA
    ensures
      var m := CreateMessage(MESSAGEID_HACCESSSTATUSINFO, StatusOctets(s));
      m.Created? && TakeStatus(Data(m.message), DataLen(m.message)) ==
        Some(Taken(s.(mappings := ReceivedEntries(s.mappings)), DataLen(m.message)))
  {
    hide StatusOctets, TakeStatus;
    CreatedMessage(MESSAGEID_HACCESSSTATUSINFO, StatusOctets(s));
    WholeAt(StatusOctets(s), StatusOctets(s));
    TakesStatus(StatusOctets(s), |StatusOctets(s)|, s);
  }

  /** With each distance read behind its own name. */
  lemma BrokersArrive(e: Entries)
    requires |EntriesOctets(e)| < MSG_MAX_USERDATA
    ensures
      var m := CreateMessage(MESSAGEID_BROKERLIST, EntriesOctets(e));
      m.Created? && TakeEntries(Data(m.message), DataLen(m.message), 0) ==
        Some(Taken(ReceivedEntries(e), DataLen(m.message)))
  {
    hide EntriesOctets, TakeEntries;
    CreatedMessage(MESSAGEID_BROKERLIST, EntriesOctets(e));
    WholeAt(EntriesOctets(e), EntriesOctets(e));
    TakesEntries(EntriesOctets(e), |EntriesOctets(e)|, 0, e);
  }

  // ----- Broker lists as written -----

  /** What is in memory: the data, and whatever comes after it. */
  function IntInMemory(d: seq<byte>, beyond: nat -> byte, pos: nat): i32 {
    FromIntOctets(seq(4, k requires 0 <= k => if pos + k < |d| then d[pos + k] else beyond(pos + k)))
  }

  /**
   BuildBrokerList as written. `base` is where the advancing pointer points and `cursor` counts from the
   start of the data; the distance is read as far as the cursor behind the pointer.
   */
  function TakeBrokers(d: seq<byte>, nDataLen: nat, beyond: nat -> byte, base: nat, cursor: nat): Option<Taken<Entries>>
    requires nDataLen <= |d|
    decreases nDataLen - cursor
  {
    if cursor >= nDataLen then Some(Taken(End, cursor))
    else
      var name :- TakeText(d, base);
      var after := cursor + (name.cursor - base);
      var rest :- TakeBrokers(d, nDataLen, beyond, name.cursor + 4, after + 4);
      Some(Taken(Entry(name.value, IntInMemory(d, beyond, base + after), rest.value), rest.cursor))
  }

  /** The list with every distance taken from where the code looks for it. */
  function Misread(d: seq<byte>, beyond: nat -> byte, pos: nat, e: Entries): Entries
    decreases e
  {
    match e
    case End => End
    case Entry(name, number, next) =>
      var n := |TextOctets(name)|;
      Entry(NotNull(name), IntInMemory(d, beyond, 2 * pos + n), Misread(d, beyond, pos + n + 4, next))
  }

  /** Names and cursor come out right, and the distances are misread like that. */
  lemma {:induction false} BrokersAreMisread(d: seq<byte>, beyond: nat -> byte, pos: nat, e: Entries)
    requires At(d, pos, EntriesOctets(e)) && pos + |EntriesOctets(e)| == |d|
    ensures TakeBrokers(d, |d|, beyond, pos, pos) == Some(Taken(Misread(d, beyond, pos, e), |d|))
    decreases e
  {
    hide At, TextOctets, IntOctets, TakeText, NotNull, IntInMemory;
    match e
    case End =>
    case Entry(name, number, next) =>
      var entry := TextOctets(name) + IntOctets(number);
      AtParts(d, pos, entry, EntriesOctets(next));
      AtParts(d, pos, TextOctets(name), IntOctets(number));
      TakesString(d, pos, name);
      BrokersAreMisread(d, beyond, pos + |entry|, next);
  }

  /** The number of the last entry. */
  function LastNumber(e: Entries): i32
    requires e.Entry?
  {
    if e.next == End then e.number else LastNumber(e.next)
  }

  /** The last distance of the rest of a list is looked for wholly behind the data. */
  lemma {:induction false} LastIsBehindTheData(d: seq<byte>, beyond: nat -> byte, fill: byte, pos: nat, e: Entries)
    requires e.Entry? && 4 <= pos && pos + |EntriesOctets(e)| == |d|
    requires forall k: nat :: beyond(k) == fill
    ensures Misread(d, beyond, pos, e) == ReceivedEntries(e) ==>
              LastNumber(e) == FromIntOctets([fill, fill, fill, fill])
    decreases e
  {
    hide FromIntOctets, IntOctets, TextOctets;
    var n := |TextOctets(e.name)|;
    if e.next == End {
      var at := 2 * pos + n;
      var found := seq(4, k requires 0 <= k => if at + k < |d| then d[at + k] else beyond(at + k));
      assert found == [fill, fill, fill, fill];
    } else {
      LastIsBehindTheData(d, beyond, fill, pos + n + 4, e.next);
    }
  }

  /** The first distance is the only one that is read where it was written. */
  lemma FirstDistanceIsRight(e: Entries, beyond: nat -> byte)
    requires e.Entry?
    ensures IntInMemory(EntriesOctets(e), beyond, |TextOctets(e.name)|) == e.number
  {
    hide IntOctets, FromIntOctets, TextOctets;
    var d, n := EntriesOctets(e), |TextOctets(e.name)|;
    assert seq(4, k requires 0 <= k => if n + k < |d| then d[n + k] else beyond(n + k)) == IntOctets(e.number);
    IntRoundTrip(e.number);
  }

  ghost predicate ArrivesWith(e: Entries, beyond: nat -> byte) {
    var d := EntriesOctets(e);
    TakeBrokers(d, |d|, beyond, 0, 0) == Some(Taken(ReceivedEntries(e), |d|))
  }

  lemma ArrivesUnlessMisread(e: Entries, beyond: nat -> byte)
    ensures ArrivesWith(e, beyond) <==> Misread(EntriesOctets(e), beyond, 0, e) == ReceivedEntries(e)
  {
    hide EntriesOctets, TakeBrokers, Misread, ReceivedEntries;
    WholeAt(EntriesOctets(e), EntriesOctets(e));
    BrokersAreMisread(EntriesOctets(e), beyond, 0, e);
  }

  /** As written, a broker list arrives whatever is in memory exactly if it has at most one broker. */
  lemma BrokersArriveExactly(e: Entries)
    ensures (forall beyond: nat -> byte :: ArrivesWith(e, beyond)) <==> e == End || e.next == End
  {
    hide ArrivesWith;
    if e == End || e.next == End {
      forall beyond: nat -> byte
        ensures ArrivesWith(e, beyond)
      {
        ArrivesUnlessMisread(e, beyond);
        if e.Entry? {
          FirstDistanceIsRight(e, beyond);
        }
      }
    } else {
      var zeros, ones := (k: nat) => 0 as byte, (k: nat) => 1 as byte;
      LastIsLost(e, zeros, 0);
      LastIsLost(e, ones, 1);
      assert FromIntOctets([0, 0, 0, 0]) != FromIntOctets([1, 1, 1, 1]);
      assert !ArrivesWith(e, zeros) || !ArrivesWith(e, ones);
    }
  }

  /** With two brokers or more the last distance is whatever lies behind the message. */
  lemma LastIsLost(e: Entries, beyond: nat -> byte, fill: byte)
    requires e.Entry? && e.next.Entry? && forall k: nat :: beyond(k) == fill
    ensures ArrivesWith(e, beyond) ==> LastNumber(e) == FromIntOctets([fill, fill, fill, fill])
  {
    hide ArrivesWith, FromIntOctets, IntOctets, TextOctets;
    ArrivesUnlessMisread(e, beyond);
    var d := EntriesOctets(e);
    LastIsBehindTheData(d, beyond, fill, |TextOctets(e.name)| + 4, e.next);
  }

  /** Such a list: its second distance would have to be what follows the message. */
  lemma SecondDistanceIsLost()
    ensures
      var e := Entry(Some([97]), 1, Entry(Some([98]), 2, End));
      !ArrivesWith(e, k => 0)
  {
    var e := Entry(Some([97]), 1, Entry(Some([98]), 2, End));
    LastIsLost(e, k => 0, 0);
  }

  // ----- Writing -----

  /** memcpy to the end of what is written. */
  method Put(pData: array<byte>, nDataLen: nat, octets: seq<byte>) returns (n: nat)
    requires nDataLen + |octets| <= pData.Length
    modifies pData
    ensures n == nDataLen + |octets| && pData[..n] == old(pData[..nDataLen]) + octets
  {
    forall k | 0 <= k < |octets| { pData[nDataLen + k] := octets[k]; }
    n := nDataLen + |octets|;
  }

  method PutText(pData: array<byte>, nDataLen: nat, s: CString) returns (n: nat)
    requires nDataLen + |TextOctets(s)| <= pData.Length
    modifies pData
    ensures n == nDataLen + |TextOctets(s)| && pData[..n] == old(pData[..nDataLen]) + TextOctets(s)
  {
    if s.Some? {
      n := Put(pData, nDataLen, s.value + [0]);
    } else {
      n := Put(pData, nDataLen, [0]);
    }
  }

  method PutPair(pData: array<byte>, nDataLen: nat, a: CString, b: CString) returns (n: nat)
    requires nDataLen + |PairOctets(a, b)| <= pData.Length
    modifies pData
    ensures n == nDataLen + |PairOctets(a, b)| && pData[..n] == old(pData[..nDataLen]) + PairOctets(a, b)
  {
    hide TextOctets;
    n := PutText(pData, nDataLen, a);
    n := PutText(pData, n, b);
  }

  method PutEntry(pData: array<byte>, nDataLen: nat, name: CString, number: i32) returns (n: nat)
    requires nDataLen + |TextOctets(name)| + 4 <= pData.Length
    modifies pData
    ensures n == nDataLen + |TextOctets(name)| + 4
    ensures pData[..n] == old(pData[..nDataLen]) + (TextOctets(name) + IntOctets(number))
  {
    hide TextOctets, IntOctets;
    n := PutText(pData, nDataLen, name);
    n := Put(pData, n, IntOctets(number));
  }

  /** Send_TunnelInfo up to the post. A longer record would overflow the local array. */
  method SendTunnelInfo(t: TunnelInfo) returns (m: Created)
    requires |TunnelOctets(t)| <= MSG_MAX_USERDATA
    ensures m == CreateMessage(MESSAGEID_TUNNELINFO, TunnelOctets(t))
  {
    hide TextOctets, IntOctets, TimeOctets, PairOctets;
    var pData := new byte[MSG_MAX_USERDATA];
    var n := PutEntry(pData, 0, t.brokerName, t.tunnelType);
    n := PutPair(pData, n, t.ipv4Local, t.ipv6Local);
    n := PutPair(pData, n, t.ipv4Remote, t.ipv6Remote);
    n := PutDelegated(pData, n, t);
    assert pData[..n] == TunnelOctets(t);
    m := CreateMessage(MESSAGEID_TUNNELINFO, pData[..n]);
  }

  method PutDelegated(pData: array<byte>, nDataLen: nat, t: TunnelInfo) returns (n: nat)
    requires nDataLen + |PairOctets(t.delegatedPrefix, t.userDomain)| + 8 <= pData.Length
    modifies pData
    ensures n == nDataLen + |PairOctets(t.delegatedPrefix, t.userDomain)| + 8
    ensures pData[..n] == old(pData[..nDataLen]) + (PairOctets(t.delegatedPrefix, t.userDomain) + TimeOctets(t.upTime))
  {
    hide PairOctets, TimeOctets;
    n := PutPair(pData, nDataLen, t.delegatedPrefix, t.userDomain);
    n := Put(pData, n, TimeOctets(t.upTime));
  }

  /** The loops of Send_BrokerList and Send_HACCESSStatusInfo. */
  method PutEntries(pData: array<byte>, nDataLen: nat, entries: Entries) returns (n: nat)
    requires nDataLen + |EntriesOctets(entries)| <= pData.Length
    modifies pData
    ensures n == nDataLen + |EntriesOctets(entries)|
    ensures pData[..n] == old(pData[..nDataLen]) + EntriesOctets(entries)
  {
    hide TextOctets, IntOctets;
    n := nDataLen;
    var list := entries;
    ghost var before, put: seq<byte> := pData[..n], [];
    while list != End
      invariant n + |EntriesOctets(list)| == nDataLen + |EntriesOctets(entries)|
      invariant n <= pData.Length && pData[..n] == before + put
      invariant EntriesOctets(entries) == put + EntriesOctets(list)
      decreases list
    {
      ghost var entry := TextOctets(list.name) + IntOctets(list.number);
      n := PutEntry(pData, n, list.name, list.number);
      Regroup(before, put, entry);
      Regroup(put, entry, EntriesOctets(list.next));
      put := put + entry;
      list := list.next;
    }
  }

  /** Send_BrokerList: the list has at least one broker. */
  method SendBrokerList(brokers: Entries) returns (m: Created)
    requires brokers.Entry? && |EntriesOctets(brokers)| <= MSG_MAX_USERDATA
    ensures m == CreateMessage(MESSAGEID_BROKERLIST, EntriesOctets(brokers))
  {
    var pData := new byte[MSG_MAX_USERDATA];
    var n := PutEntries(pData, 0, brokers);
    assert pData[..n] == EntriesOctets(brokers);
    m := CreateMessage(MESSAGEID_BROKERLIST, pData[..n]);
  }

  method SendStatusInfo(s: StatusInfo) returns (m: Created)
    requires |StatusOctets(s)| <= MSG_MAX_USERDATA
    ensures m == CreateMessage(MESSAGEID_HACCESSSTATUSINFO, StatusOctets(s))
  {
    hide IntOctets, EntriesOctets;
    var pData := new byte[MSG_MAX_USERDATA];
    var n := Put(pData, 0, IntOctets(s.proxy));
    n := Put(pData, n, IntOctets(s.web));
    n := Put(pData, n, IntOctets(s.devmapmod));
    n := PutEntries(pData, n, s.mappings);
    assert pData[..n] == StatusOctets(s);
    m := CreateMessage(MESSAGEID_HACCESSSTATUSINFO, pData[..n]);
  }

  // ----- Reading: d is the receive buffer from the data on, and every value ends within it -----

  /** pal_strdup and pal_strlen. */
  method ReadText(d: seq<byte>, nCursor: nat) returns (s: CString, n: nat)
    requires TakeText(d, nCursor).Some?
    ensures TakeText(d, nCursor) == Some(Taken(s, n))
  {
    n := nCursor;
    while d[n] != 0
      invariant nCursor <= n <= FirstFrom(d, nCursor, 0) < |d|
      decreases |d| - n
    {
      assert d[n] in d[nCursor..n + 1];
      n := n + 1;
    }
    FirstFromIs(d, nCursor, n, 0);
    s := Some(d[nCursor..n]);
    n := n + 1;
  }

  /** `accepted` is the assertion that the cursor is at the end of the data. */
  method TranslateTunnelInfo(d: seq<byte>, nDataLen: nat) returns (t: TunnelInfo, nCursor: nat, accepted: bool)
    requires nDataLen <= |d| && TakeTunnel(d, 0).Some?
    ensures TakeTunnel(d, 0) == Some(Taken(t, nCursor)) && (accepted <==> nCursor == nDataLen)
  {
    hide TakeText, TakeInt, TakeTime, FromIntOctets, FromTimeOctets;
    var brokerName, ipv4Local, ipv6Local, ipv4Remote, ipv6Remote, prefix, userDomain;
    brokerName, nCursor := ReadText(d, 0);
    var tunnelType := ReadInt(d, nCursor);
    nCursor := nCursor + 4;
    ipv4Local, nCursor := ReadText(d, nCursor);
    ipv6Local, nCursor := ReadText(d, nCursor);
    ipv4Remote, nCursor := ReadText(d, nCursor);
    ipv6Remote, nCursor := ReadText(d, nCursor);
    prefix, nCursor := ReadText(d, nCursor);
    userDomain, nCursor := ReadText(d, nCursor);
    var upTime := ReadTime(d, nCursor);
    nCursor := nCursor + 8;
    t := TunnelInfo(brokerName, tunnelType, ipv4Local, ipv6Local, ipv4Remote, ipv6Remote, prefix, userDomain, upTime);
    accepted := nCursor == nDataLen;
  }

  method ReadInt(d: seq<byte>, nCursor: nat) returns (x: i32)
    requires TakeInt(d, nCursor).Some?
    ensures TakeInt(d, nCursor) == Some(Taken(x, nCursor + 4))
  {
    x := FromIntOctets(d[nCursor..nCursor + 4]);
  }

  method ReadTime(d: seq<byte>, nCursor: nat) returns (x: i64)
    requires TakeTime(d, nCursor).Some?
    ensures TakeTime(d, nCursor) == Some(Taken(x, nCursor + 8))
  {
    x := FromTimeOctets(d[nCursor..nCursor + 8]);
  }

  /** BuildMappingStatuses: pointer and cursor advance together. */
  method BuildMappingStatuses(d: seq<byte>, nDataLen: nat, base: nat, nCursor: nat) returns (list: Entries, n: nat)
    requires nDataLen <= |d| && base == nCursor && TakeEntries(d, nDataLen, nCursor).Some?
    ensures TakeEntries(d, nDataLen, nCursor) == Some(Taken(list, n))
    decreases nDataLen - nCursor
  {
    hide TakeText, TakeInt, FromIntOctets;
    if nCursor >= nDataLen {
      return End, nCursor;
    }
    var name, next;
    name, next := ReadText(d, base);
    var status := ReadInt(d, next);
    list, n := BuildMappingStatuses(d, nDataLen, next + 4, nCursor + (next - base) + 4);
    list := Entry(name, status, list);
  }

  method TranslateStatusInfo(d: seq<byte>, nDataLen: nat) returns (s: StatusInfo, nCursor: nat, accepted: bool)
    requires nDataLen <= |d| && TakeStatus(d, nDataLen).Some?
    ensures TakeStatus(d, nDataLen) == Some(Taken(s, nCursor)) && (accepted <==> nCursor == nDataLen)
  {
    hide TakeInt, TakeEntries, FromIntOctets;
    var proxy := ReadInt(d, 0);
    var web := ReadInt(d, 4);
    var devmapmod := ReadInt(d, 8);
    var mappings;
    mappings, nCursor := BuildMappingStatuses(d, nDataLen, 12, 12);
    s := StatusInfo(proxy, web, devmapmod, mappings);
    accepted := nCursor == nDataLen;
  }

  /** BuildBrokerList, as written. */
  method BuildBrokerList(d: seq<byte>, nDataLen: nat, beyond: nat -> byte, base: nat, nCursor: nat)
    returns (list: Entries, n: nat)
    requires nDataLen <= |d| && TakeBrokers(d, nDataLen, beyond, base, nCursor).Some?
    ensures TakeBrokers(d, nDataLen, beyond, base, nCursor) == Some(Taken(list, n))
    decreases nDataLen - nCursor
  {
    hide TakeText, IntInMemory;
    if nCursor >= nDataLen {
      return End, nCursor;
    }
    var name, next;
    name, next := ReadText(d, base);
    n := nCursor + (next - base);
    var distance := IntInMemory(d, beyond, base + n);
    list, n := BuildBrokerList(d, nDataLen, beyond, next + 4, n + 4);
    list := Entry(name, distance, list);
  }
}
