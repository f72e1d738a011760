/**
 The packet layer of servent.cc. A message is cut into at most 63 packets of at most 1020 octets,
 numbered within the message, and stamped with a message number that wraps at 64. The peer rebuilds
 the message from a FIFO pipe. The pipe itself, and the moments at which it is ready, are inputs.
 */
module Servent {
  import opened Bytes

  type Packet = seq<byte>

  const HEADER_LENGTH := 4
  const PKT_USERDATA_MAX := 1020
  const MAX_USERDATA := 64260
  const PKT_HEADER_FIXEDVALUE := 0x0A
  const NONFRAGDATA := 0x20
  const FRAGDATAFIRST := 0x21
  const FRAGDATA := 0x22
  const FRAGDATALAST := 0x23
  const INVALID_SEQNUM := 99

  datatype Error =
    | NoError
    | BadPacket
    | ReadBufferTooSmall
    | PacketsNotOrdered
    | IpcDesynchronized
    | SendBufferTooBig
    | IpcFailure
    | IoWaitTimeout

  // ----- Packets -----

  /** The bit-fields of PACKET_HEADER, laid out from the least significant bit: 4, 6, 6, 6 and 10 bits. */
  function HeaderWord(msgtype: nat, seqNum: nat, fragSeqNum: nat, dataLen: nat): u32
    requires msgtype < 64 && seqNum < 64 && fragSeqNum < 64 && dataLen < 1024
  {
    PKT_HEADER_FIXEDVALUE + 0x10 * msgtype + 0x400 * seqNum + 0x1_0000 * fragSeqNum + 0x40_0000 * dataLen
  }

  function MakePacket(data: seq<byte>, msgtype: nat, seqNum: nat, fragSeqNum: nat): Packet
    requires |data| <= PKT_USERDATA_MAX && msgtype < 64 && seqNum < 64 && fragSeqNum < 64
  {
    LittleEndian32(HeaderWord(msgtype, seqNum, fragSeqNum, |data|)) + data
  }

  lemma PacketSize(data: seq<byte>, msgtype: nat, seqNum: nat, fragSeqNum: nat)
    requires |data| <= PKT_USERDATA_MAX && msgtype < 64 && seqNum < 64 && fragSeqNum < 64
    ensures |MakePacket(data, msgtype, seqNum, fragSeqNum)| == HEADER_LENGTH + |data|
  {
  }

  datatype Extracted = Rejected | Accepted(msgtype: nat, seqNum: nat, fragSeqNum: nat, data: seq<byte>)

  /** ExtractPacketData reads the receive buffer: the packet, then whatever the buffer held before. */
  function ExtractPacketData(buffer: seq<byte>): (x: Extracted)
    requires |buffer| == HEADER_LENGTH + PKT_USERDATA_MAX
    ensures x.Accepted? ==> NONFRAGDATA <= x.msgtype <= FRAGDATALAST && x.seqNum < 64 && x.fragSeqNum < 64
  {
    var word := FromLittleEndian32(buffer[..4]);
    var msgtype, dataLen := word / 0x10 % 64, word / 0x40_0000;
    if word % 0x10 != PKT_HEADER_FIXEDVALUE then Rejected
    else if msgtype < NONFRAGDATA || msgtype > FRAGDATALAST then Rejected
    else if dataLen > PKT_USERDATA_MAX then Rejected
    else Accepted(msgtype, word / 0x400 % 64, word / 0x1_0000 % 64, buffer[4..4 + dataLen])
  }

  lemma HeaderFields(msgtype: nat, seqNum: nat, fragSeqNum: nat, dataLen: nat)
    requires msgtype < 64 && seqNum < 64 && fragSeqNum < 64 && dataLen < 1024
    ensures
      var word := HeaderWord(msgtype, seqNum, fragSeqNum, dataLen);
      && word % 0x10 == PKT_HEADER_FIXEDVALUE && word / 0x10 % 64 == msgtype && word / 0x400 % 64 == seqNum
      && word / 0x1_0000 % 64 == fragSeqNum && word / 0x40_0000 == dataLen
  {
    FieldsOfWord(PKT_HEADER_FIXEDVALUE, msgtype, seqNum, fragSeqNum, dataLen);
  }

  lemma FieldsOfWord(fixed: nat, msgtype: nat, seqNum: nat, fragSeqNum: nat, dataLen: nat)
    requires fixed < 16 && msgtype < 64 && seqNum < 64 && fragSeqNum < 64
    ensures
      var word := fixed + 0x10 * msgtype + 0x400 * seqNum + 0x1_0000 * fragSeqNum + 0x40_0000 * dataLen;
      && word % 0x10 == fixed && word / 0x10 % 64 == msgtype && word / 0x400 % 64 == seqNum
      && word / 0x1_0000 % 64 == fragSeqNum && word / 0x40_0000 == dataLen
  {
    var word := fixed + 0x10 * msgtype + 0x400 * seqNum + 0x1_0000 * fragSeqNum + 0x40_0000 * dataLen;
    var (frag, number) := (fragSeqNum + 64 * dataLen, seqNum + 64 * (fragSeqNum + 64 * dataLen));
    assert word == fixed + 16 * (msgtype + 64 * number);
    LowFour(fixed, msgtype + 64 * number);
    LowSix(msgtype, number);
    LowSix(seqNum, frag);
    LowSix(fragSeqNum, dataLen);
    SixBitsMore(word);
  }

  lemma LowFour(digit: nat, rest: nat)
    requires digit < 16
    ensures (digit + 16 * rest) % 16 == digit && (digit + 16 * rest) / 16 == rest
  {
  }

  lemma LowSix(digit: nat, rest: nat)
    requires digit < 64
    ensures (digit + 64 * rest) % 64 == digit && (digit + 64 * rest) / 64 == rest
  {
  }

  lemma SixBitsMore(x: nat)
    ensures x / 0x400 == x / 16 / 64 && x / 0x1_0000 == x / 16 / 64 / 64 && x / 0x40_0000 == x / 16 / 64 / 64 / 64
  {
  }

  /** A packet survives the pipe whatever the receive buffer held before it. */
  lemma PacketRoundTrip(data: seq<byte>, msgtype: nat, seqNum: nat, fragSeqNum: nat, stale: seq<byte>)
    requires |data| <= PKT_USERDATA_MAX && NONFRAGDATA <= msgtype <= FRAGDATALAST
    requires seqNum < 64 && fragSeqNum < 64 && |data| + |stale| == PKT_USERDATA_MAX
    ensures ExtractPacketData(MakePacket(data, msgtype, seqNum, fragSeqNum) + stale)
         == Accepted(msgtype, seqNum, fragSeqNum, data)
  {
    var word := HeaderWord(msgtype, seqNum, fragSeqNum, |data|);
    var buffer := MakePacket(data, msgtype, seqNum, fragSeqNum) + stale;
    HeaderFields(msgtype, seqNum, fragSeqNum, |data|);
    LittleEndian32RoundTrip(word);
    assert buffer[..4] == LittleEndian32(word);
    assert buffer[4..4 + |data|] == data;
  }

  // ----- Cutting a message -----

  function FragmentCount(message: seq<byte>): nat {
    (|message| + PKT_USERDATA_MAX - 1) / PKT_USERDATA_MAX
  }

  ghost predicate Sendable(message: seq<byte>) {
    1 <= |message| <= MAX_USERDATA
  }

  /** Sixty-three fragments are always enough, and every fragment number fits its six bits. */
  lemma FragmentsSuffice(message: seq<byte>)
    requires |message| <= MAX_USERDATA
    ensures FragmentCount(message) <= 63
    ensures FragmentCount(message) == 0 <==> message == []
  {
  }

  lemma FragmentIndex(message: seq<byte>, k: nat)
    ensures k < FragmentCount(message) <==> PKT_USERDATA_MAX * k < |message|
  {
  }

  function FragmentType(message: seq<byte>, k: nat): nat {
    if PKT_USERDATA_MAX * (k + 1) < |message| then if k == 0 then FRAGDATAFIRST else FRAGDATA
    else if k == 0 then NONFRAGDATA else FRAGDATALAST
  }

  function FragmentData(message: seq<byte>, k: nat): (data: seq<byte>)
    requires PKT_USERDATA_MAX * k < |message|
    ensures 0 < |data| <= PKT_USERDATA_MAX && PKT_USERDATA_MAX * k + |data| <= |message|
  {
    if PKT_USERDATA_MAX * (k + 1) < |message| then message[PKT_USERDATA_MAX * k..PKT_USERDATA_MAX * (k + 1)]
    else message[PKT_USERDATA_MAX * k..]
  }

  function Fragment(message: seq<byte>, seqNum: nat, k: nat): Packet
    requires PKT_USERDATA_MAX * k < |message| <= MAX_USERDATA && seqNum < 64
  {
    MakePacket(FragmentData(message, k), FragmentType(message, k), seqNum, k)
  }

  function Fragments(message: seq<byte>, seqNum: nat, count: nat): (packets: seq<Packet>)
    requires |message| <= MAX_USERDATA && seqNum < 64 && count <= FragmentCount(message)
    ensures |packets| == count
  {
    FragmentsSuffice(message);
    seq(count, k requires 0 <= k < count => FragmentIndex(message, k); Fragment(message, seqNum, k))
  }

  // ----- Rebuilding a message -----

  /** What _ReadData keeps between two packets. */
  datatype Reader = Reader(lastSeqNum: nat, lastFragSeqNum: nat, data: seq<byte>)

  const FRESH: Reader := Reader(INVALID_SEQNUM, INVALID_SEQNUM, [])

  datatype Received = More(reader: Reader) | Complete(message: seq<byte>) | Broken(error: Error)

  /** One pass of the loop of _ReadData over a receive buffer. */
  function Receive(reader: Reader, buffer: seq<byte>, capacity: nat): Received
    requires |buffer| == HEADER_LENGTH + PKT_USERDATA_MAX
  {
    match ExtractPacketData(buffer)
    case Rejected => Broken(BadPacket)
    case Accepted(msgtype, seqNum, fragSeqNum, data) =>
      if data == [] then Broken(BadPacket)
      else if reader.lastSeqNum != INVALID_SEQNUM && seqNum != reader.lastSeqNum then Broken(IpcDesynchronized)
      else if reader.lastFragSeqNum != INVALID_SEQNUM && fragSeqNum != reader.lastFragSeqNum + 1 then
        Broken(PacketsNotOrdered)
      else if |reader.data| + |data| > capacity then Broken(ReadBufferTooSmall)
      else if msgtype == NONFRAGDATA || msgtype == FRAGDATALAST then Complete(reader.data + data)
      else More(Reader(seqNum, fragSeqNum, reader.data + data))
  }

  /** The reader after the first k fragments of a message. */
  function ReaderAfter(message: seq<byte>, seqNum: nat, k: nat): Reader
    requires PKT_USERDATA_MAX * k <= |message|
  {
    if k == 0 then FRESH else Reader(seqNum, k - 1, message[..PKT_USERDATA_MAX * k])
  }

  /** The next fragment takes the reader one step on, and the last one completes the message. */
  lemma ReceiveFragment(message: seq<byte>, seqNum: nat, k: nat, stale: seq<byte>, capacity: nat)
    requires PKT_USERDATA_MAX * k < |message| <= MAX_USERDATA && |message| <= capacity && seqNum < 64
    requires |Fragment(message, seqNum, k) + stale| == HEADER_LENGTH + PKT_USERDATA_MAX
    ensures Receive(ReaderAfter(message, seqNum, k), Fragment(message, seqNum, k) + stale, capacity)
         == if k + 1 == FragmentCount(message) then Complete(message) else More(ReaderAfter(message, seqNum, k + 1))
  {
    hide MakePacket, ExtractPacketData;
    FragmentsSuffice(message);
    FragmentIndex(message, k);
    FragmentIndex(message, k + 1);
    var data := FragmentData(message, k);
    PacketSize(data, FragmentType(message, k), seqNum, k);
    PacketRoundTrip(data, FragmentType(message, k), seqNum, k, stale);
    assert ReaderAfter(message, seqNum, k).data + data
        == if PKT_USERDATA_MAX * (k + 1) < |message| then message[..PKT_USERDATA_MAX * (k + 1)] else message;
  }

  // ----- The loop of _ReadData, over any queue of packets -----

  /** A packet carries at least the octets its header announces and at most what the buffer holds. */
  ghost predicate Framed(packet: Packet) {
    && HEADER_LENGTH <= |packet| <= HEADER_LENGTH + PKT_USERDATA_MAX
    && FromLittleEndian32(packet[..4]) / 0x40_0000 <= |packet| - HEADER_LENGTH
  }

  function Filled(packet: Packet): (buffer: seq<byte>)
    requires |packet| <= HEADER_LENGTH + PKT_USERDATA_MAX
    ensures |buffer| == HEADER_LENGTH + PKT_USERDATA_MAX
  {
    packet + seq(HEADER_LENGTH + PKT_USERDATA_MAX - |packet|, _ => 0)
  }

  /** What the buffer held before does not matter for a framed packet. */
  lemma StaleIsIgnored(packet: Packet, stale: seq<byte>)
    requires Framed(packet) && |packet| + |stale| == HEADER_LENGTH + PKT_USERDATA_MAX
    ensures ExtractPacketData(packet + stale) == ExtractPacketData(Filled(packet))
  {
    var one, other := packet + stale, Filled(packet);
    var dataLen := FromLittleEndian32(packet[..4]) / 0x40_0000;
    assert one[..4] == packet[..4] == other[..4];
    assert one[4..4 + dataLen] == packet[4..4 + dataLen] == other[4..4 + dataLen];
  }

  datatype ReadResult = ReadResult(error: Error, data: seq<byte>, next: nat)

  /** What a read returns and what it leaves in the pipe are those of a result. */
  ghost predicate Returned(
    result: ReadResult, error: Error, data: seq<byte>, before: seq<Packet>, after: seq<Packet>)
  {
    && error == result.error && data == result.data
    && result.next <= |before| && after == before[result.next..]
  }

  /** The result of one _ReadData that finds packets[i] at the front of the pipe. */
  ghost function Consume(reader: Reader, packets: seq<Packet>, i: nat, capacity: nat): ReadResult
    requires forall k :: 0 <= k < |packets| ==> Framed(packets[k])
    requires i <= |packets|
    decreases |packets| - i
  {
    if i == |packets| then ReadResult(IpcFailure, reader.data, i)  // nothing more will ever be ready
    else
      assert Framed(packets[i]);
      match Receive(reader, Filled(packets[i]), capacity)
      case Broken(error) => ReadResult(error, reader.data, i + 1)
      case Complete(message) => ReadResult(NoError, message, i + 1)
      case More(next) => Consume(next, packets, i + 1, capacity)
  }

  /** A receive buffer after a packet was read into it. */
  function Overlaid(buffer: seq<byte>, packet: Packet): (after: seq<byte>)
    requires |packet| <= |buffer|
    ensures |after| == |buffer|
  {
    packet + buffer[|packet|..]
  }

  /**
   The same for any packets that fit the receive buffer, truncated ones included, on a buffer that keeps
   what it held. `fails(i)` says that looking at the pipe or reading from it fails before packet i.
   */
  ghost function ConsumeOver(
    reader: Reader, buffer: seq<byte>, packets: seq<Packet>, i: nat, capacity: nat, fails: nat -> bool): ReadResult
    requires |buffer| == HEADER_LENGTH + PKT_USERDATA_MAX
    requires forall k :: 0 <= k < |packets| ==> |packets[k]| <= |buffer|
    requires i <= |packets|
    decreases |packets| - i
  {
    if i == |packets| || fails(i) then ReadResult(IpcFailure, reader.data, i)
    else if packets[i] == [] then ConsumeOver(reader, buffer, packets, i + 1, capacity, fails)
    else
      var after := Overlaid(buffer, packets[i]);
      match Receive(reader, after, capacity)
      case Broken(error) => ReadResult(error, reader.data, i + 1)
      case Complete(message) => ReadResult(NoError, message, i + 1)
      case More(next) => ConsumeOver(next, after, packets, i + 1, capacity, fails)
  }

  /** If every packet is framed and nothing fails, what the buffer held before does not matter. */
  lemma {:induction false} FramedIsClean(
    reader: Reader, buffer: seq<byte>, packets: seq<Packet>, i: nat, capacity: nat, fails: nat -> bool)
    requires |buffer| == HEADER_LENGTH + PKT_USERDATA_MAX && i <= |packets|
    requires forall k :: 0 <= k < |packets| ==> Framed(packets[k])
    requires forall k :: 0 <= k < |packets| ==> !fails(k)
    ensures forall k :: 0 <= k < |packets| ==> |packets[k]| <= |buffer|
    ensures ConsumeOver(reader, buffer, packets, i, capacity, fails) == Consume(reader, packets, i, capacity)
    decreases |packets| - i
  {
    hide ExtractPacketData, FromLittleEndian32;
    if i < |packets| {
      var packet := packets[i];
      assert Framed(packet);
      StaleIsIgnored(packet, buffer[|packet|..]);
      match Receive(reader, Filled(packet), capacity)
      case More(next) => FramedIsClean(next, Overlaid(buffer, packet), packets, i + 1, capacity, fails);
      case _ =>
    }
  }

  lemma FramedIsReturned(stale: seq<byte>, packets: seq<Packet>, capacity: nat, fails: nat -> bool, error: Error,
                         data: seq<byte>, after: seq<Packet>)
    requires |stale| == HEADER_LENGTH + PKT_USERDATA_MAX
    requires forall k :: 0 <= k < |packets| ==> |packets[k]| <= |stale|
    requires Returned(ConsumeOver(FRESH, stale, packets, 0, capacity, fails), error, data, packets, after)
    ensures (forall k :: 0 <= k < |packets| ==> Framed(packets[k]) && !fails(k)) ==>
      Returned(Consume(FRESH, packets, 0, capacity), error, data, packets, after)
  {
    hide Consume, ConsumeOver, Returned, Framed;
    if forall k :: 0 <= k < |packets| ==> Framed(packets[k]) && !fails(k) {
      FramedIsClean(FRESH, stale, packets, 0, capacity, fails);
    }
  }

  // ----- A fragment that was cut short -----

  /** ExtractPacketData in terms of the four header octets. */
  lemma ExtractByOctets(buffer: seq<byte>)
    requires |buffer| == HEADER_LENGTH + PKT_USERDATA_MAX
    ensures
      var dataLen := 4 * buffer[3] as int + buffer[2] / 64;
      ExtractPacketData(buffer) ==
        if buffer[0] % 16 != PKT_HEADER_FIXEDVALUE || buffer[0] / 16 > 3 || buffer[1] % 4 != 2
           || dataLen > PKT_USERDATA_MAX then Rejected
        else Accepted(NONFRAGDATA + buffer[0] / 16, buffer[1] / 4, buffer[2] % 64, buffer[4..4 + dataLen])
  {
    FieldsOfOctets(buffer[0], buffer[1], buffer[2], buffer[3]);
    assert buffer[..4] == [buffer[0], buffer[1], buffer[2], buffer[3]];
  }

  lemma FieldsOfOctets(b0: byte, b1: byte, b2: byte, b3: byte)
    ensures
      var word := b0 as int + 0x100 * b1 as int + 0x1_0000 * b2 as int + 0x100_0000 * b3 as int;
      && word % 0x10 == b0 % 16 && word / 0x10 % 64 == b0 / 16 + 16 * (b1 % 4) && word / 0x400 % 64 == b1 / 4
      && word / 0x1_0000 % 64 == b2 % 64 && word / 0x40_0000 == b2 / 64 + 4 * b3
  {
    FieldsOfWord(b0 % 16, b0 / 16 + 16 * (b1 % 4), b1 / 4, b2 % 64, b2 / 64 + 4 * b3 as int);
  }

  lemma HeaderOctets(msgtype: nat, seqNum: nat, fragSeqNum: nat, dataLen: nat)
    requires NONFRAGDATA <= msgtype <= FRAGDATALAST && seqNum < 64 && fragSeqNum < 64 && dataLen < 1024
    ensures LittleEndian32(HeaderWord(msgtype, seqNum, fragSeqNum, dataLen))
         == [PKT_HEADER_FIXEDVALUE + 16 * (msgtype - NONFRAGDATA), 2 + 4 * seqNum, fragSeqNum + 64 * (dataLen % 4),
             dataLen / 4]
  {
    hide LittleEndian32;
    OctetsOfSum(PKT_HEADER_FIXEDVALUE + 16 * (msgtype - NONFRAGDATA), 2 + 4 * seqNum, fragSeqNum + 64 * (dataLen % 4),
                dataLen / 4);
  }

  lemma OctetsOfSum(b0: byte, b1: byte, b2: byte, b3: byte)
    ensures LittleEndian32(b0 as int + 0x100 * b1 as int + 0x1_0000 * b2 as int + 0x100_0000 * b3 as int)
         == [b0, b1, b2, b3]
  {
    var h2 := b2 as int + 0x100 * b3 as int;
    var h1 := b1 as int + 0x100 * h2;
    LowOctet(b2, b3);
    LowOctet(b1, h2);
    LowOctet(b0, h1);
    HighOctets(b0 as int + 0x100 * h1);
  }

  lemma LowOctet(b: byte, h: nat)
    ensures (b as int + 0x100 * h) % 0x100 == b && (b as int + 0x100 * h) / 0x100 == h
  {
  }

  lemma HighOctets(x: nat)
    ensures x / 0x1_0000 == x / 0x100 / 0x100 && x / 0x100_0000 == x / 0x100 / 0x100 / 0x100
  {
  }

  /**
   The message with the octets that a cut fragment lacks: n octets of fragment k arrived, the others are
   those that the receive buffer held in their place.
   */
  function Patched(message: seq<byte>, k: nat, n: nat, buffer: seq<byte>): (patched: seq<byte>)
    requires PKT_USERDATA_MAX * k < |message| && |buffer| == HEADER_LENGTH + PKT_USERDATA_MAX
    requires HEADER_LENGTH <= n <= HEADER_LENGTH + |FragmentData(message, k)|
    ensures |patched| == |message|
  {
    var end := HEADER_LENGTH + |FragmentData(message, k)|;
    message[..PKT_USERDATA_MAX * k + n - HEADER_LENGTH] + buffer[n..end]
    + message[PKT_USERDATA_MAX * k + end - HEADER_LENGTH..]
  }

  lemma FragmentOctets(message: seq<byte>, seqNum: nat, k: nat)
    requires PKT_USERDATA_MAX * k < |message| <= MAX_USERDATA && seqNum < 64
    ensures
      var packet, data := Fragment(message, seqNum, k), FragmentData(message, k);
      && |packet| == HEADER_LENGTH + |data| && packet[4..] == data
      && data == message[PKT_USERDATA_MAX * k..PKT_USERDATA_MAX * k + |data|]
      && (PKT_USERDATA_MAX * (k + 1) <= |message| ==> |data| == PKT_USERDATA_MAX)
  {
    hide LittleEndian32;
  }


  lemma SliceOfRest<T>(s: seq<T>, i: nat, rest: seq<T>, from: nat, to: nat)
    requires i <= from <= to <= |s| && s[i..] == rest
    ensures s[from..to] == rest[from - i..to - i]
  {
    assert s[i..][from - i..to - i] == s[from..to];
  }


  lemma SliceOfSlice<T>(s: seq<T>, a: nat, b: nat, i: nat, j: nat)
    requires a <= b <= |s| && i <= j <= b - a
    ensures s[a..b][i..j] == s[a + i..a + j]
  {
    forall x | 0 <= x < j - i
      ensures s[a..b][i..j][x] == s[a + i..a + j][x]
    {
    }
  }


  /** The header of every fragment: its kind, the number of its message, its own, and the length of its data. */
  lemma FragmentHeader(message: seq<byte>, seqNum: nat, k: nat)
    requires PKT_USERDATA_MAX * k < |message| <= MAX_USERDATA && seqNum < 64
    ensures
      var kind := if |message| <= 1020 then 0 else if k == 0 then 1 else if 1020 * (k + 1) < |message| then 2 else 3;
      var dataLen := if 1020 * (k + 1) < |message| then 1020 else |message| - 1020 * k;
      && |Fragment(message, seqNum, k)| == 4 + dataLen
      && Fragment(message, seqNum, k)[..4]
         == [0x0a + 16 * kind, 2 + 4 * seqNum, k + 64 * (dataLen % 4), dataLen / 4]
      && Fragment(message, seqNum, k)[4..] == message[1020 * k..1020 * k + dataLen]
  {
    hide LittleEndian32;
    HeaderOctets(FragmentType(message, k), seqNum, k, |FragmentData(message, k)|);
    FragmentOctets(message, seqNum, k);
  }

  lemma PatchedData(message: seq<byte>, k: nat, n: nat, buffer: seq<byte>)
    requires PKT_USERDATA_MAX * k < |message| && |buffer| == HEADER_LENGTH + PKT_USERDATA_MAX
    requires HEADER_LENGTH <= n <= HEADER_LENGTH + |FragmentData(message, k)|
    ensures
      var patched, data := Patched(message, k, n, buffer), FragmentData(message, k);
      && FragmentData(patched, k) == data[..n - HEADER_LENGTH] + buffer[n..HEADER_LENGTH + |data|]
      && patched[..PKT_USERDATA_MAX * k] == message[..PKT_USERDATA_MAX * k]
  {
  }

  /** A cut fragment in the buffer is a whole fragment of the patched message. */
  lemma CutIsPatched(message: seq<byte>, seqNum: nat, k: nat, n: nat, buffer: seq<byte>)
    requires PKT_USERDATA_MAX * k < |message| <= MAX_USERDATA && seqNum < 64
    requires |buffer| == HEADER_LENGTH + PKT_USERDATA_MAX && HEADER_LENGTH <= n <= |Fragment(message, seqNum, k)|
    ensures
      var packet, patched := Fragment(message, seqNum, k), Patched(message, k, n, buffer);
      && |Fragment(patched, seqNum, k)| == |packet|
      && Overlaid(buffer, packet[..n]) == Fragment(patched, seqNum, k) + buffer[|packet|..]
      && ReaderAfter(patched, seqNum, k) == ReaderAfter(message, seqNum, k)
  {
    hide LittleEndian32, FragmentData, Patched;
    var packet, patched := Fragment(message, seqNum, k), Patched(message, k, n, buffer);
    PatchedData(message, k, n, buffer);
    var header := packet[..4];
    assert Fragment(patched, seqNum, k) == header + FragmentData(patched, k);
    assert packet[..n] == header + FragmentData(message, k)[..n - 4];
    assert buffer[n..] == buffer[n..|packet|] + buffer[|packet|..];
  }

  /** Replacing a part of a sequence leaves it as it was exactly if the part is replaced by itself. */
  lemma Replaced<T>(s: seq<T>, from: nat, to: nat, part: seq<T>)
    requires from <= to <= |s| && |part| == to - from
    ensures s[..from] + part + s[to..] == s <==> part == s[from..to]
  {
    assert s == s[..from] + s[from..to] + s[to..];
    assert (s[..from] + part + s[to..])[from..to] == part;
  }

  lemma FragmentFrom(message: seq<byte>, seqNum: nat, k: nat, n: nat)
    requires PKT_USERDATA_MAX * k < |message| <= MAX_USERDATA && seqNum < 64
    requires HEADER_LENGTH <= n <= |Fragment(message, seqNum, k)|
    ensures
      var from, to := PKT_USERDATA_MAX * k + n - HEADER_LENGTH, PKT_USERDATA_MAX * k + |FragmentData(message, k)|;
      from <= to <= |message| && Fragment(message, seqNum, k)[n..] == message[from..to]
  {
    hide Fragment, FragmentData;
    FragmentOctets(message, seqNum, k);
    var packet, data := Fragment(message, seqNum, k), FragmentData(message, k);
    SliceOfRest(packet, 4, data, n, |packet|);
    SliceOfSlice(message, PKT_USERDATA_MAX * k, PKT_USERDATA_MAX * k + |data|, n - HEADER_LENGTH, |data|);
  }

  lemma PatchedIsMessage(message: seq<byte>, seqNum: nat, k: nat, n: nat, buffer: seq<byte>)
    requires PKT_USERDATA_MAX * k < |message| <= MAX_USERDATA && seqNum < 64
    requires |buffer| == HEADER_LENGTH + PKT_USERDATA_MAX && HEADER_LENGTH <= n <= |Fragment(message, seqNum, k)|
    ensures Patched(message, k, n, buffer) == message
       <==> buffer[n..|Fragment(message, seqNum, k)|] == Fragment(message, seqNum, k)[n..]
  {
    hide Fragment, FragmentData;
    FragmentOctets(message, seqNum, k);
    FragmentFrom(message, seqNum, k, n);
    var end := HEADER_LENGTH + |FragmentData(message, k)|;
    var from, to := PKT_USERDATA_MAX * k + n - HEADER_LENGTH, PKT_USERDATA_MAX * k + end - HEADER_LENGTH;
    Replaced(message, from, to, buffer[n..end]);
  }

  /**
   A fragment that was cut behind its header is taken for a whole one: the reader goes on, or completes
   the message, with the octets its buffer held in place of the missing ones.
   */
  lemma ReceiveCut(message: seq<byte>, seqNum: nat, k: nat, n: nat, buffer: seq<byte>, capacity: nat)
    requires PKT_USERDATA_MAX * k < |message| <= MAX_USERDATA && |message| <= capacity && seqNum < 64
    requires |buffer| == HEADER_LENGTH + PKT_USERDATA_MAX && HEADER_LENGTH <= n <= |Fragment(message, seqNum, k)|
    ensures
      var packet, patched := Fragment(message, seqNum, k), Patched(message, k, n, buffer);
      && Receive(ReaderAfter(message, seqNum, k), Overlaid(buffer, packet[..n]), capacity)
         == (if k + 1 == FragmentCount(message) then Complete(patched) else More(ReaderAfter(patched, seqNum, k + 1)))
      && (patched == message <==> buffer[n..|packet|] == packet[n..])
  {
    hide MakePacket, Receive, ReaderAfter, Overlaid, Patched;
    PacketSize(FragmentData(message, k), FragmentType(message, k), seqNum, k);
    PatchedIsMessage(message, seqNum, k, n, buffer);
    var packet, patched := Fragment(message, seqNum, k), Patched(message, k, n, buffer);
    CutIsPatched(message, seqNum, k, n, buffer);
    ReceiveFragment(patched, seqNum, k, buffer[|packet|..], capacity);
  }

  /** What the receive buffer holds in front of fragment k: a whole packet, from fragment 1 on. */
  function BufferBefore(message: seq<byte>, seqNum: nat, k: nat, stale: seq<byte>): (buffer: seq<byte>)
    requires PKT_USERDATA_MAX * k < |message| <= MAX_USERDATA && seqNum < 64
    requires |stale| == HEADER_LENGTH + PKT_USERDATA_MAX
    ensures |buffer| == HEADER_LENGTH + PKT_USERDATA_MAX
  {
    if k == 0 then stale else Fragment(message, seqNum, k - 1)
  }

  /** The header that cutting fragment k within its header leaves in the buffer. */
  lemma CutHeader(message: seq<byte>, seqNum: nat, k: nat, n: nat, buffer: seq<byte>)
    requires PKT_USERDATA_MAX * k < |message| <= MAX_USERDATA && seqNum < 64
    requires |buffer| == HEADER_LENGTH + PKT_USERDATA_MAX && 1 <= n < HEADER_LENGTH
    ensures k < 64 && |Fragment(message, seqNum, k)| == HEADER_LENGTH + |FragmentData(message, k)|
    ensures
      var after := Overlaid(buffer, Fragment(message, seqNum, k)[..n]);
      && after[0] == PKT_HEADER_FIXEDVALUE + 16 * (FragmentType(message, k) - NONFRAGDATA)
      && after[1] == (if n > 1 then 2 + 4 * seqNum else buffer[1])
      && after[2] == (if n > 2 then k + 64 * (|FragmentData(message, k)| % 4) else buffer[2])
      && after[3..] == buffer[3..]
  {
    hide LittleEndian32;
    HeaderOctets(FragmentType(message, k), seqNum, k, |FragmentData(message, k)|);
  }

  /**
   The first fragment, cut within its header: not one octet of the message arrives, and what does is up to
   the stale buffer. The reader takes a packet of its octets if they complete the header.
   */
  lemma ReceiveCutFirstHeader(message: seq<byte>, seqNum: nat, n: nat, buffer: seq<byte>, capacity: nat)
    requires 1 <= |message| <= MAX_USERDATA && seqNum < 64
    requires |buffer| == HEADER_LENGTH + PKT_USERDATA_MAX && 1 <= n < HEADER_LENGTH
    ensures |Fragment(message, seqNum, 0)| > n
    ensures
      var one: int := if n > 1 then 2 + 4 * seqNum else buffer[1];
      var two: int := if n > 2 then 64 * (|FragmentData(message, 0)| % 4) else buffer[2];
      var dataLen := 4 * buffer[3] as int + two / 64;
      Receive(FRESH, Overlaid(buffer, Fragment(message, seqNum, 0)[..n]), capacity) ==
        if one % 4 != 2 || dataLen == 0 || dataLen > PKT_USERDATA_MAX then Broken(BadPacket)
        else if dataLen > capacity then Broken(ReadBufferTooSmall)
        else if FragmentCount(message) == 1 then Complete(buffer[4..4 + dataLen])
        else More(Reader(one / 4, two % 64, buffer[4..4 + dataLen]))
  {
    hide MakePacket, ExtractPacketData, Overlaid, FragmentData;
    CutHeader(message, seqNum, 0, n, buffer);
    var after := Overlaid(buffer, Fragment(message, seqNum, 0)[..n]);
    ExtractByOctets(after);
    assert after[3] == after[3..][0] == buffer[3];
    var dataLen := 4 * after[3] as int + after[2] / 64;
    if dataLen <= PKT_USERDATA_MAX {
      SliceOfRest(after, 3, buffer[3..], 4, 4 + dataLen);
      SliceOfRest(buffer, 3, buffer[3..], 4, 4 + dataLen);
    }
  }

  /**
   A later fragment, cut within its header: the fragment before it, which the buffer still holds, is out of
   order; but with three header octets and a length divisible by four it is taken once more.
   */
  lemma ReceiveCutHeader(message: seq<byte>, seqNum: nat, k: nat, n: nat, stale: seq<byte>, capacity: nat)
    requires 0 < k && PKT_USERDATA_MAX * k < |message| <= MAX_USERDATA && seqNum < 64
    requires |stale| == HEADER_LENGTH + PKT_USERDATA_MAX && 1 <= n < HEADER_LENGTH
    ensures |Fragment(message, seqNum, k)| > n
    ensures
      var before := BufferBefore(message, seqNum, k, stale);
      var data := message[..PKT_USERDATA_MAX * k] + message[PKT_USERDATA_MAX * (k - 1)..PKT_USERDATA_MAX * k];
      Receive(ReaderAfter(message, seqNum, k), Overlaid(before, Fragment(message, seqNum, k)[..n]), capacity) ==
        if n < 3 then Broken(PacketsNotOrdered)
        else if |FragmentData(message, k)| % 4 != 0 then Broken(BadPacket)
        else if |data| > capacity then Broken(ReadBufferTooSmall)
        else if k + 1 == FragmentCount(message) then Complete(data)
        else More(Reader(seqNum, k, data))
  {
    hide LittleEndian32, ExtractPacketData, Overlaid, Fragment, FragmentData;
    var before := BufferBefore(message, seqNum, k, stale);
    CutHeader(message, seqNum, k, n, before);
    WholeFragment(message, seqNum, k - 1);
    var after := Overlaid(before, Fragment(message, seqNum, k)[..n]);
    ExtractByOctets(after);
    assert after[3] == after[3..][0] == before[3];
    FragmentIndex(message, k + 1);
    assert after[4..] == after[3..][1..] == before[4..];
  }

  lemma WholeFragment(message: seq<byte>, seqNum: nat, k: nat)
    requires PKT_USERDATA_MAX * (k + 1) <= |message| <= MAX_USERDATA && seqNum < 64
    ensures
      var packet := Fragment(message, seqNum, k);
      && |packet| == HEADER_LENGTH + PKT_USERDATA_MAX
      && packet[1] == 2 + 4 * seqNum && packet[2] == k && packet[3] == 255
      && packet[4..] == message[PKT_USERDATA_MAX * k..PKT_USERDATA_MAX * (k + 1)]
  {
    hide LittleEndian32;
    HeaderOctets(FragmentType(message, k), seqNum, k, PKT_USERDATA_MAX);
  }

  /** The pipe as a failed write leaves it: k whole fragments, and of the next one n octets, or no packet. */
  function CutPipe(message: seq<byte>, seqNum: nat, k: nat, n: nat): (packets: seq<Packet>)
    requires PKT_USERDATA_MAX * k < |message| <= MAX_USERDATA && seqNum < 64
    requires n <= |Fragment(message, seqNum, k)|
    ensures |packets| == k + 1
    ensures forall i :: 0 <= i < |packets| ==> |packets[i]| <= HEADER_LENGTH + PKT_USERDATA_MAX
  {
    FragmentIndex(message, k);
    Fragments(message, seqNum, k) + [Fragment(message, seqNum, k)[..n]]
  }

  /** The loop of _ReadData gets past the whole fragments of such a pipe. */
  lemma {:induction false} ConsumeWhole(message: seq<byte>, seqNum: nat, k: nat, n: nat, j: nat, stale: seq<byte>,
                                        capacity: nat, fails: nat -> bool)
    requires PKT_USERDATA_MAX * k < |message| <= MAX_USERDATA && |message| <= capacity && seqNum < 64 && j <= k
    requires n <= |Fragment(message, seqNum, k)| && |stale| == HEADER_LENGTH + PKT_USERDATA_MAX
    requires forall i :: 0 <= i < k ==> !fails(i)
    ensures
      var packets := CutPipe(message, seqNum, k, n);
      var before, after := BufferBefore(message, seqNum, j, stale), BufferBefore(message, seqNum, k, stale);
      ConsumeOver(ReaderAfter(message, seqNum, j), before, packets, j, capacity, fails)
      == ConsumeOver(ReaderAfter(message, seqNum, k), after, packets, k, capacity, fails)
    decreases k - j
  {
    hide Receive, Fragment, Overlaid, ReaderAfter, CutPipe;
    if j < k {
      FragmentIndex(message, k);
      FragmentIndex(message, j + 1);
      InCutPipe(message, seqNum, k, n, j);
      WholeFragment(message, seqNum, j);
      WholeOverlays(BufferBefore(message, seqNum, j, stale), Fragment(message, seqNum, j));
      ReceiveFragment(message, seqNum, j, [], capacity);
      ConsumeWhole(message, seqNum, k, n, j + 1, stale, capacity, fails);
    }
  }

  lemma InCutPipe(message: seq<byte>, seqNum: nat, k: nat, n: nat, j: nat)
    requires PKT_USERDATA_MAX * k < |message| <= MAX_USERDATA && seqNum < 64 && j < k
    requires n <= |Fragment(message, seqNum, k)|
    ensures CutPipe(message, seqNum, k, n)[j] == Fragment(message, seqNum, j)
  {
    hide Fragment;
    FragmentIndex(message, k);
  }

  lemma WholeOverlays(buffer: seq<byte>, packet: Packet)
    requires |buffer| == |packet|
    ensures Overlaid(buffer, packet) == packet == packet + []
  {
  }

  /**
   What _ReadData makes of a message whose fragment k was cut to n octets, when nothing else fails: behind
   the header the reader takes what its buffer holds for the missing octets, and the last fragment thus
   completes a message, without error; from fragment 1 on these octets are those 1020 places before them.
   */
  lemma ConsumeCut(message: seq<byte>, seqNum: nat, k: nat, n: nat, stale: seq<byte>, capacity: nat, fails: nat -> bool)
    requires PKT_USERDATA_MAX * k < |message| <= MAX_USERDATA && |message| <= capacity && seqNum < 64
    requires HEADER_LENGTH <= n <= |Fragment(message, seqNum, k)| && |stale| == HEADER_LENGTH + PKT_USERDATA_MAX
    requires forall i :: 0 <= i <= k ==> !fails(i)
    ensures
      var buffer := BufferBefore(message, seqNum, k, stale);
      var packet, patched := Fragment(message, seqNum, k), Patched(message, k, n, buffer);
      && ConsumeOver(FRESH, stale, CutPipe(message, seqNum, k, n), 0, capacity, fails)
         == (if k + 1 == FragmentCount(message) then ReadResult(NoError, patched, k + 1)
             else ReadResult(IpcFailure, patched[..PKT_USERDATA_MAX * (k + 1)], k + 1))
      && (patched == message <==> buffer[n..|packet|] == packet[n..])
  {
    hide LittleEndian32, ExtractPacketData, Receive, MakePacket, Patched, BufferBefore;
    ConsumeWhole(message, seqNum, k, n, 0, stale, capacity, fails);
    FirstBuffer(message, seqNum, stale);
    ReceiveCut(message, seqNum, k, n, BufferBefore(message, seqNum, k, stale), capacity);
  }

  lemma FirstBuffer(message: seq<byte>, seqNum: nat, stale: seq<byte>)
    requires 0 < |message| <= MAX_USERDATA && seqNum < 64 && |stale| == HEADER_LENGTH + PKT_USERDATA_MAX
    ensures BufferBefore(message, seqNum, 0, stale) == stale && ReaderAfter(message, seqNum, 0) == FRESH
  {
  }

  /** From fragment 1 on, what stands in for the missing octets is the fragment before. */
  lemma PatchedFromBefore(message: seq<byte>, seqNum: nat, k: nat, n: nat, stale: seq<byte>)
    requires 0 < k && PKT_USERDATA_MAX * k < |message| <= MAX_USERDATA && seqNum < 64
    requires HEADER_LENGTH <= n <= |Fragment(message, seqNum, k)| && |stale| == HEADER_LENGTH + PKT_USERDATA_MAX
    ensures
      var from, to := PKT_USERDATA_MAX * k + n - HEADER_LENGTH, PKT_USERDATA_MAX * k + |FragmentData(message, k)|;
      Patched(message, k, n, BufferBefore(message, seqNum, k, stale))
      == message[..from] + message[from - PKT_USERDATA_MAX..to - PKT_USERDATA_MAX] + message[to..]
  {
    hide Fragment, FragmentData, Patched;
    var buffer, data := BufferBefore(message, seqNum, k, stale), FragmentData(message, k);
    var start := PKT_USERDATA_MAX * (k - 1);
    FragmentOctets(message, seqNum, k);
    HeldBefore(message, seqNum, k - 1, n, |data|);
    PatchedIs(message, k, n, buffer, message[start + n - HEADER_LENGTH..start + |data|]);
  }

  /** What a buffer with a whole fragment in it holds from octet n to the end of a packet of this size. */
  lemma HeldBefore(message: seq<byte>, seqNum: nat, k: nat, n: nat, size: nat)
    requires PKT_USERDATA_MAX * (k + 1) <= |message| <= MAX_USERDATA && seqNum < 64
    requires HEADER_LENGTH <= n <= HEADER_LENGTH + size <= |Fragment(message, seqNum, k)|
    ensures
      var start := PKT_USERDATA_MAX * k;
      && start + size <= |message|
      && Fragment(message, seqNum, k)[n..HEADER_LENGTH + size] == message[start + n - HEADER_LENGTH..start + size]
  {
    hide Fragment, FragmentData;
    var start := PKT_USERDATA_MAX * k;
    FragmentOctets(message, seqNum, k);
    SliceOfRest(Fragment(message, seqNum, k), 4, message[start..start + PKT_USERDATA_MAX], n, HEADER_LENGTH + size);
    SliceOfSlice(message, start, start + PKT_USERDATA_MAX, n - HEADER_LENGTH, size);
  }

  lemma PatchedIs(message: seq<byte>, k: nat, n: nat, buffer: seq<byte>, held: seq<byte>)
    requires PKT_USERDATA_MAX * k < |message| && |buffer| == HEADER_LENGTH + PKT_USERDATA_MAX
    requires HEADER_LENGTH <= n <= HEADER_LENGTH + |FragmentData(message, k)|
    requires buffer[n..HEADER_LENGTH + |FragmentData(message, k)|] == held
    ensures
      var from, to := PKT_USERDATA_MAX * k + n - HEADER_LENGTH, PKT_USERDATA_MAX * k + |FragmentData(message, k)|;
      Patched(message, k, n, buffer) == message[..from] + held + message[to..]
  {
  }

  /** The same for a cut within the header: the fragment then counts for what the reader makes of its buffer. */
  lemma ConsumeCutHeader(message: seq<byte>, seqNum: nat, k: nat, n: nat, stale: seq<byte>, capacity: nat,
                         fails: nat -> bool)
    requires PKT_USERDATA_MAX * k < |message| <= MAX_USERDATA && |message| <= capacity && seqNum < 64
    requires n < HEADER_LENGTH && n <= |Fragment(message, seqNum, k)| && |stale| == HEADER_LENGTH + PKT_USERDATA_MAX
    requires forall i :: 0 <= i <= k ==> !fails(i)
    ensures
      var buffer := BufferBefore(message, seqNum, k, stale);
      ConsumeOver(FRESH, stale, CutPipe(message, seqNum, k, n), 0, capacity, fails) ==
        if n == 0 then ReadResult(IpcFailure, message[..PKT_USERDATA_MAX * k], k + 1)
        else
          match Receive(ReaderAfter(message, seqNum, k), Overlaid(buffer, Fragment(message, seqNum, k)[..n]), capacity)
          case Broken(error) => ReadResult(error, message[..PKT_USERDATA_MAX * k], k + 1)
          case Complete(data) => ReadResult(NoError, data, k + 1)
          case More(next) => ReadResult(IpcFailure, next.data, k + 1)
  {
    hide LittleEndian32, ExtractPacketData, Receive, MakePacket, BufferBefore;
    ConsumeWhole(message, seqNum, k, n, 0, stale, capacity, fails);
    FirstBuffer(message, seqNum, stale);
  }

  /** The last octet was lost, and the peer takes another message for it, without error. */
  lemma CutIsAccepted()
    ensures
      var zeros := seq(HEADER_LENGTH + PKT_USERDATA_MAX, _ => 0);
      ConsumeOver(FRESH, zeros, [Fragment([7, 8], 0, 0)[..5]], 0, MAX_USERDATA, _ => false)
      == ReadResult(NoError, [7, 0], 1)
  {
    hide LittleEndian32, ConsumeOver;
    var zeros: seq<byte> := seq(HEADER_LENGTH + PKT_USERDATA_MAX, _ => 0);
    ConsumeCut([7, 8], 0, 0, 5, zeros, MAX_USERDATA, _ => false);
    assert Fragments([7, 8], 0, 0) == [];
    assert CutPipe([7, 8], 0, 0, 5) == [Fragment([7, 8], 0, 0)[..5]];
    assert Patched([7, 8], 0, 5, zeros) == [7, 0];
  }

  /** The pipe holds the fragments of a message from position `start` on. */
  ghost predicate Holds(packets: seq<Packet>, start: nat, message: seq<byte>, seqNum: nat)
    requires |message| <= MAX_USERDATA && seqNum < 64
  {
    && start + FragmentCount(message) <= |packets|
    && packets[start..start + FragmentCount(message)] == Fragments(message, seqNum, FragmentCount(message))
  }

  lemma FragmentFramed(message: seq<byte>, seqNum: nat, k: nat)
    requires PKT_USERDATA_MAX * k < |message| <= MAX_USERDATA && seqNum < 64
    ensures Framed(Fragment(message, seqNum, k))
  {
    FragmentsSuffice(message);
    FragmentIndex(message, k);
    var data := FragmentData(message, k);
    var word := HeaderWord(FragmentType(message, k), seqNum, k, |data|);
    HeaderFields(FragmentType(message, k), seqNum, k, |data|);
    LittleEndian32RoundTrip(word);
    assert Fragment(message, seqNum, k)[..4] == LittleEndian32(word);
  }

  /** A message whose fragments are in the pipe is returned whole, and nothing behind it is touched. */
  lemma {:induction false} ConsumeFragments(message: seq<byte>, seqNum: nat, k: nat, packets: seq<Packet>, start: nat,
                                            capacity: nat)
    requires forall i :: 0 <= i < |packets| ==> Framed(packets[i])
    requires Sendable(message) && seqNum < 64 && k < FragmentCount(message) && |message| <= capacity
    requires Holds(packets, start, message, seqNum)
    ensures PKT_USERDATA_MAX * k < |message|
    ensures Consume(ReaderAfter(message, seqNum, k), packets, start + k, capacity)
         == ReadResult(NoError, message, start + FragmentCount(message))
    decreases FragmentCount(message) - k
  {
    hide LittleEndian32, FromLittleEndian32, Receive, MakePacket;
    FragmentIndex(message, k);
    FragmentFramed(message, seqNum, k);
    var packet := packets[start + k];
    assert packet == packets[start..start + FragmentCount(message)][k] == Fragment(message, seqNum, k);
    ReceiveFragment(message, seqNum, k, seq(HEADER_LENGTH + PKT_USERDATA_MAX - |packet|, _ => 0), capacity);
    if k + 1 < FragmentCount(message) {
      ConsumeFragments(message, seqNum, k + 1, packets, start, capacity);
    }
  }

  // ----- The servent -----

  class Pipe {
    var packets: seq<Packet>
  }

  /** What one write to the pipe does; it has failed as well if CanWrite reports an error. */
  datatype Outcome = Whole | Short(sent: nat) | Failed

  /** What arrives of a packet that is not written whole. */
  function Truncated(packet: Packet, outcome: Outcome): seq<Packet> {
    if outcome.Short? then [packet[..if outcome.sent < |packet| then outcome.sent else 0]] else []
  }

  /**
   What _WriteData does to the pipe and to the sequence number: `sent` fragments are written whole, and
   if these are not all, the next one fails or is cut short.
   */
  ghost predicate Wrote(data: seq<byte>, outcomes: nat -> Outcome, before: seq<Packet>, after: seq<Packet>,
                        seqNum: nat, seqNum': nat, error: Error, nWritten: nat, sent: nat)
    requires |data| <= MAX_USERDATA && seqNum < 64
  {
    && sent <= FragmentCount(data)
    && (forall k :: 0 <= k < sent ==> outcomes(k).Whole?)
    && (sent == FragmentCount(data) ==>
          && error == NoError && nWritten == |data| && seqNum' == (seqNum + 1) % 64
          && after == before + Fragments(data, seqNum, sent))
    && (sent < FragmentCount(data) ==>
          && !outcomes(sent).Whole? && (error == NoError <==> outcomes(sent).Short?)
          && PKT_USERDATA_MAX * sent < |data| && nWritten == PKT_USERDATA_MAX * sent && seqNum' == seqNum
          && after == before + Fragments(data, seqNum, sent) + Truncated(Fragment(data, seqNum, sent), outcomes(sent)))
  }

  lemma FragmentsGrow(before: seq<Packet>, message: seq<byte>, seqNum: nat, count: nat)
    requires |message| <= MAX_USERDATA && seqNum < 64 && count < FragmentCount(message)
    ensures PKT_USERDATA_MAX * count < |message|
    ensures before + Fragments(message, seqNum, count + 1)
         == before + Fragments(message, seqNum, count) + [Fragment(message, seqNum, count)]
  {
    hide Fragment;
    FragmentIndex(message, count);
    var grown := Fragments(message, seqNum, count) + [Fragment(message, seqNum, count)];
    assert Fragments(message, seqNum, count + 1) == grown;
  }

  class Servent {
    const incoming: Pipe
    const outgoing: Pipe
    var seqNum: nat
    var ttlBytesRead: nat
    var ttlBytesWritten: nat

    ghost predicate Valid()
      reads this
    {
      seqNum < 64
    }

    constructor (incoming: Pipe, outgoing: Pipe)
      ensures Valid() && this.incoming == incoming && this.outgoing == outgoing
      ensures ttlBytesRead == ttlBytesWritten == 0
    {
      this.incoming, this.outgoing := incoming, outgoing;
      seqNum, ttlBytesRead, ttlBytesWritten := 0, 0, 0;
    }

    /**
     _WriteData. `waits(k)` is the number of times the pipe is not ready before packet k, and
     `outcomes(k)` is what writing packet k does. The message number advances only when the whole
     message went out; after a failure or a short write the pipe holds the fragments written so far.
     */
    method WriteRaw(data: seq<byte>, waits: nat -> nat, outcomes: nat -> Outcome)
      returns (error: Error, nWritten: nat, ghost sent: nat)
      requires Valid()
      modifies this`seqNum, outgoing
      ensures Valid()
      ensures |data| > MAX_USERDATA ==>
        error == SendBufferTooBig && seqNum == old(seqNum) && outgoing.packets == old(outgoing.packets)
      ensures |data| <= MAX_USERDATA ==>
        Wrote(data, outcomes, old(outgoing.packets), outgoing.packets, old(seqNum), seqNum, error, nWritten, sent)
    {
      hide MakePacket, LittleEndian32, FromLittleEndian32;
      nWritten, sent, error := 0, 0, NoError;
      if |data| > MAX_USERDATA {
        return SendBufferTooBig, nWritten, sent;
      }
      FragmentsSuffice(data);
      var nFragSeqNum := 0;
      var wait := waits(0);
      while nWritten < |data|
        invariant seqNum == old(seqNum) && sent == nFragSeqNum <= FragmentCount(data)
        invariant nWritten == if sent == FragmentCount(data) then |data| else PKT_USERDATA_MAX * sent
        invariant forall k :: 0 <= k < sent ==> outcomes(k).Whole?
        invariant outgoing.packets == old(outgoing.packets) + Fragments(data, seqNum, sent)
        decreases |data| - nWritten, wait
      {
        if wait > 0 {
          wait := wait - 1;
          continue;
        }
        var nToSend := |data| - nWritten;
        var msgtype;
        if nToSend > PKT_USERDATA_MAX {
          nToSend := PKT_USERDATA_MAX;
          msgtype := if nFragSeqNum == 0 then FRAGDATAFIRST else FRAGDATA;
        } else {
          msgtype := if nFragSeqNum == 0 then NONFRAGDATA else FRAGDATALAST;
        }
        FragmentsGrow(old(outgoing.packets), data, seqNum, sent);
        var packet := MakePacket(data[nWritten..nWritten + nToSend], msgtype, seqNum, nFragSeqNum);
        assert packet == Fragment(data, seqNum, sent) by {
          assert data[nWritten..nWritten + nToSend] == FragmentData(data, sent);
        }
        match outcomes(nFragSeqNum) {
          case Failed =>
            return IpcFailure, nWritten, sent;
          case Short(n) =>
            outgoing.packets := outgoing.packets + [packet[..if n < |packet| then n else 0]];
            return NoError, nWritten, sent;
          case Whole =>
            outgoing.packets := outgoing.packets + [packet];
            nWritten := nWritten + nToSend;
        }
        nFragSeqNum, sent := nFragSeqNum + 1, sent + 1;
        if nFragSeqNum > 63 {
          assert false;  // 63 fragments carry every message that passed the check above
        }
        wait := waits(nFragSeqNum);
      }
      seqNum := (seqNum + 1) % 64;
    }

    /**
     WriteData: counts the octets of a successful write, in 64 bits. `locked` says whether the mutex is
     acquired in time.
     */
    method WriteData(data: seq<byte>, waits: nat -> nat, outcomes: nat -> Outcome, locked: bool)
      returns (error: Error, nWritten: nat, ghost sent: nat)
      requires Valid()
      modifies this`seqNum, this`ttlBytesWritten, outgoing
      ensures Valid()
      ensures !locked ==> error == IoWaitTimeout
      ensures locked && |data| > MAX_USERDATA ==> error == SendBufferTooBig
      ensures !locked || |data| > MAX_USERDATA ==> seqNum == old(seqNum) && outgoing.packets == old(outgoing.packets)
      ensures locked && |data| <= MAX_USERDATA ==>
        Wrote(data, outcomes, old(outgoing.packets), outgoing.packets, old(seqNum), seqNum, error, nWritten, sent)
      ensures ttlBytesWritten
           == (old(ttlBytesWritten) + if error == NoError then nWritten else 0) % 0x1_0000_0000_0000_0000
    {
      nWritten, sent := 0, 0;
      if locked {
        error, nWritten, sent := WriteRaw(data, waits, outcomes);
      } else {
        error := IoWaitTimeout;
      }
      ttlBytesWritten := (ttlBytesWritten + if error == NoError then nWritten else 0) % 0x1_0000_0000_0000_0000;
    }

    /** _ReadData, with `waits(k)` not-ready polls before packet k, on a buffer that holds anything. */
    method ReadRaw(capacity: nat, waits: nat -> nat, fails: nat -> bool)
      returns (error: Error, data: seq<byte>, ghost stale: seq<byte>)
      requires forall k :: 0 <= k < |incoming.packets| ==> |incoming.packets[k]| <= HEADER_LENGTH + PKT_USERDATA_MAX
      modifies incoming
      ensures |stale| == HEADER_LENGTH + PKT_USERDATA_MAX
      ensures
        Returned(ConsumeOver(FRESH, stale, old(incoming.packets), 0, capacity, fails),
                 error, data, old(incoming.packets), incoming.packets)
    {
      hide Receive;
      var recvBuf := new byte[HEADER_LENGTH + PKT_USERDATA_MAX];
      stale := recvBuf[..];
      var nLastSeqNum: nat, nLastFragSeqNum: nat := INVALID_SEQNUM, INVALID_SEQNUM;
      var nMessageType := 0;
      data := [];
      var wait, used := waits(0), 0;
      ghost var packets := incoming.packets;
      while nMessageType != NONFRAGDATA && nMessageType != FRAGDATALAST
        invariant used <= |packets| && incoming.packets == packets[used..]
        invariant nMessageType != NONFRAGDATA && nMessageType != FRAGDATALAST ==>
          ConsumeOver(FRESH, stale, packets, 0, capacity, fails) ==
          ConsumeOver(Reader(nLastSeqNum, nLastFragSeqNum, data), recvBuf[..], packets, used, capacity, fails)
        invariant nMessageType == NONFRAGDATA || nMessageType == FRAGDATALAST ==>
          ConsumeOver(FRESH, stale, packets, 0, capacity, fails) == ReadResult(NoError, data, used)
        decreases |packets| - used, wait
      {
        if incoming.packets == [] || fails(used) {
          return IpcFailure, data, stale;
        }
        if wait > 0 {
          wait := wait - 1;
          continue;
        }
        var packet := incoming.packets[0];
        incoming.packets := incoming.packets[1..];
        used := used + 1;
        if packet != [] {
          error, data, nMessageType, nLastSeqNum, nLastFragSeqNum :=
            ReadPacket(recvBuf, packet, data, nLastSeqNum, nLastFragSeqNum, capacity);
          if error != NoError {
            return;
          }
        }
        wait := waits(used);
      }
      error := NoError;
    }

    /** The part of the loop that handles one packet. */
    method ReadPacket(recvBuf: array<byte>, packet: Packet, data0: seq<byte>, last0: nat, lastFrag0: nat, capacity: nat)
      returns (error: Error, data: seq<byte>, nMessageType: nat, nLastSeqNum: nat, nLastFragSeqNum: nat)
      requires recvBuf.Length == HEADER_LENGTH + PKT_USERDATA_MAX && |packet| <= recvBuf.Length
      modifies recvBuf
      ensures recvBuf[..] == Overlaid(old(recvBuf[..]), packet)
      ensures
        match Receive(Reader(last0, lastFrag0, data0), recvBuf[..], capacity)
        case Broken(e) => error == e && e != NoError && data == data0
        case Complete(m) => error == NoError && data == m && nMessageType in {NONFRAGDATA, FRAGDATALAST}
        case More(r) =>
          && error == NoError && Reader(nLastSeqNum, nLastFragSeqNum, data) == r
          && nMessageType !in {NONFRAGDATA, FRAGDATALAST}
    {
      hide LittleEndian32, FromLittleEndian32, ExtractPacketData;
      data, nMessageType, nLastSeqNum, nLastFragSeqNum := data0, 0, last0, lastFrag0;
      ghost var stale := recvBuf[|packet|..];
      forall k | 0 <= k < |packet| {
        recvBuf[k] := packet[k];
      }
      assert recvBuf[..] == packet + stale;
      match ExtractPacketData(recvBuf[..]) {
        case Rejected =>
          error := BadPacket;
        case Accepted(msgtype, seqNum, fragSeqNum, userData) =>
          nMessageType := msgtype;
          if userData == [] {
            error := BadPacket;
            return;
          }
          if nLastSeqNum != INVALID_SEQNUM && seqNum != nLastSeqNum {
            error := IpcDesynchronized;
            return;
          }
          nLastSeqNum := seqNum;
          if nLastFragSeqNum != INVALID_SEQNUM && fragSeqNum != nLastFragSeqNum + 1 {
            error := PacketsNotOrdered;
            return;
          }
          nLastFragSeqNum := fragSeqNum;
          if |data| + |userData| > capacity {
            error := ReadBufferTooSmall;
            return;
          }
          data := data + userData;
          error := NoError;
      }
    }

    /** ReadData: counts the octets of a successful read, in 64 bits. */
    method ReadData(capacity: nat, waits: nat -> nat, fails: nat -> bool, locked: bool)
      returns (error: Error, data: seq<byte>, ghost stale: seq<byte>)
      requires forall k :: 0 <= k < |incoming.packets| ==> |incoming.packets[k]| <= HEADER_LENGTH + PKT_USERDATA_MAX
      modifies this`ttlBytesRead, incoming
      ensures !locked ==> error == IoWaitTimeout && incoming.packets == old(incoming.packets)
      ensures |stale| == HEADER_LENGTH + PKT_USERDATA_MAX
      ensures locked ==>
        Returned(ConsumeOver(FRESH, stale, old(incoming.packets), 0, capacity, fails),
                 error, data, old(incoming.packets), incoming.packets)
      ensures
        var packets := old(incoming.packets);
        locked && (forall k :: 0 <= k < |packets| ==> Framed(packets[k]) && !fails(k)) ==>
          Returned(Consume(FRESH, packets, 0, capacity), error, data, packets, incoming.packets)
      ensures ttlBytesRead == (old(ttlBytesRead) + if error == NoError then |data| else 0) % 0x1_0000_0000_0000_0000
    {
      hide Consume, ConsumeOver, Returned, Framed;
      ghost var packets := incoming.packets;
      if locked {
        error, data, stale := ReadRaw(capacity, waits, fails);
        FramedIsReturned(stale, packets, capacity, fails, error, data, incoming.packets);
      } else {
        error, data, stale := IoWaitTimeout, [], seq(HEADER_LENGTH + PKT_USERDATA_MAX, _ => 0);
      }
      ttlBytesRead := (ttlBytesRead + if error == NoError then |data| else 0) % 0x1_0000_0000_0000_0000;
    }
  }
}
