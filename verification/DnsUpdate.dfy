/**
 The DNS UPDATE messages of dns.c, written through an advancing pointer, and a decoder that follows
 compression pointers as section 4.1.4 of RFC 1035 says.
 */
module DnsUpdate {
  import opened Bytes
  import opened Wrappers

  const NAME_SIZE := 253
  const LABEL_SIZE := 63
  const HEADER_SIZE := 12
  const BUFFER_SIZE := 512
  const OPCODE_UPDATE := 5
  const TYPE_SOA: u16 := 6
  const TYPE_AAAA: u16 := 28
  const AAAA_SIZE: u16 := 16
  const TYPE_ANY: u16 := 255
  const CLASS_IN: u16 := 1
  const CLASS_ANY: u16 := 255
  const DOT: byte := 46

  datatype RCode = NoError | FormErr

  /** The address argument: absent, not an address, or the octets NetText2Addr6 makes of it. */
  datatype Aaaa = Absent | Unreadable | Address(octets: seq<byte>)

  /** A domain name as a list of labels. */
  datatype Name = Root | Label(head: seq<byte>, tail: Name)

  function Append(a: Name, b: Name): Name {
    match a
    case Root => b
    case Label(h, t) => Label(h, Append(t, b))
  }

  ghost predicate LabelsFit(n: Name, size: nat) {
    match n
    case Root => true
    case Label(h, t) => 0 < |h| <= size && LabelsFit(t, size)
  }

  // ----- From dotted text to labels -----

  /** The non-empty pieces between the dots from position i on. */
  function LabelsFrom(s: seq<byte>, i: nat): Name
    requires i <= |s|
    decreases |s| - i
  {
    if i == |s| then Root
    else
      var j := FirstFrom(s, i, DOT);
      var rest := LabelsFrom(s, if j < |s| then j + 1 else j);
      if j > i then Label(s[i..j], rest) else rest
  }

  function Labels(s: seq<byte>): Name {
    LabelsFrom(s, 0)
  }

  /** Labels joined by dots. */
  function Dotted(n: Name): seq<byte> {
    match n
    case Root => []
    case Label(h, t) => if t == Root then h else h + [DOT] + Dotted(t)
  }

  ghost predicate DotFree(n: Name) {
    match n
    case Root => true
    case Label(h, t) => h != [] && DOT !in h && DotFree(t)
  }

  lemma UpToDot(s: seq<byte>, i: nat, h: seq<byte>, rest: seq<byte>)
    requires i <= |s| && s[i..] == h + [DOT] + rest
    ensures i + |h| < |s| && s[i..i + |h|] == h && s[i + |h|] == DOT && s[i + |h| + 1..] == rest
  {
    Regroup(h, [DOT], rest);
    Pieces(s, i, h, [DOT] + rest);
    Pieces(s, i + |h|, [DOT], rest);
    assert s[i + |h|] == s[i + |h|..][0];
  }

  lemma {:induction false} LabelsInside(s: seq<byte>, i: nat, n: Name)
    requires i <= |s| && DotFree(n) && s[i..] == Dotted(n)
    ensures LabelsFrom(s, i) == n
    decreases n
  {
    hide FirstFrom, LabelsFrom;
    NoMoreLabels(s);
    match n
    case Root =>
    case Label(h, t) =>
      if t == Root {
        FirstFromIs(s, i, |s|, DOT);
        LabelFrom(s, i, |s|);
      } else {
        UpToDot(s, i, h, Dotted(t));
        LabelsInside(s, i + |h| + 1, t);
        FirstFromIs(s, i, i + |h|, DOT);
        LabelFrom(s, i, i + |h|);
      }
  }

  lemma NoMoreLabels(s: seq<byte>)
    ensures LabelsFrom(s, |s|) == Root
  {
  }

  lemma LabelFrom(s: seq<byte>, i: nat, dot: nat)
    requires i < |s| && dot == FirstFrom(s, i, DOT) > i
    ensures LabelsFrom(s, i) == Label(s[i..dot], LabelsFrom(s, if dot < |s| then dot + 1 else dot))
  {
  }

  /** Splitting undoes joining. */
  lemma LabelsOfDotted(n: Name)
    requires DotFree(n)
    ensures Labels(Dotted(n)) == n
  {
    LabelsInside(Dotted(n), 0, n);
  }

  lemma {:induction false} LabelsAreBounded(s: seq<byte>, i: nat)
    requires i <= |s|
    ensures LabelsFit(LabelsFrom(s, i), |s|)
    decreases |s| - i
  {
    if i < |s| {
      var j := FirstFrom(s, i, DOT);
      LabelsAreBounded(s, if j < |s| then j + 1 else j);
    }
  }

  lemma {:induction false} FitWider(n: Name, size: nat, wider: nat)
    requires LabelsFit(n, size) && size <= wider
    ensures LabelsFit(n, wider)
  {
    if n.Label? {
      FitWider(n.tail, size, wider);
    }
  }

  // ----- The wire format -----

  /** Labels with their length octets, without an end. */
  function Wire(n: Name): seq<byte> {
    match n
    case Root => []
    case Label(h, t) => [|h| % 0x100] + h + Wire(t)
  }

  /** The end of a name: a pointer, or the empty label for offset 0. */
  function Ending(offset: u16): seq<byte> {
    if offset == 0 then [0] else BigEndian16(0xc000 + offset % 0x4000)
  }

  lemma {:induction false} WireSize(s: seq<byte>, i: nat)
    requires i <= |s|
    ensures |Wire(LabelsFrom(s, i))| <= |s| - i + 1
    ensures i < |s| && s[i] == DOT ==> |Wire(LabelsFrom(s, i))| <= |s| - i
    ensures i == |s| ==> Wire(LabelsFrom(s, i)) == []
    decreases |s| - i
  {
    if i < |s| {
      var j := FirstFrom(s, i, DOT);
      WireSize(s, if j < |s| then j + 1 else j);
    }
  }

  function Header(id: u16): (h: seq<byte>)
    ensures |h| == HEADER_SIZE
  {
    BigEndian16(id) + BigEndian16(OPCODE_UPDATE * 0x800) +
    BigEndian16(1) + BigEndian16(0) + BigEndian16(1) + BigEndian16(0)
  }

  function Zone(domain: seq<byte>): seq<byte> {
    Wire(Labels(domain)) + Ending(0) + (BigEndian16(TYPE_SOA) + BigEndian16(CLASS_IN))
  }

  function RecordData(ttl: u32, aaaa: Aaaa): seq<byte> {
    match aaaa
    case Address(octets) =>
      BigEndian16(TYPE_AAAA) + BigEndian16(CLASS_IN) + BigEndian32(ttl) + BigEndian16(AAAA_SIZE) + octets
    case _ =>
      BigEndian16(TYPE_ANY) + BigEndian16(CLASS_ANY) + BigEndian32(0) + BigEndian16(0)
  }

  function Body(id: u16, domain: seq<byte>, name: seq<byte>, ttl: u32, aaaa: Aaaa): seq<byte> {
    Header(id) + (Zone(domain) + (Wire(Labels(name)) + (Ending(HEADER_SIZE) + RecordData(ttl, aaaa))))
  }

  // ----- Decoding -----

  datatype Decoded = Decoded(name: Name, next: nat)

  /** A name at a position; a pointer must lead to before the place where the name started. */
  function DecodeName(m: seq<byte>, pos: nat, start: nat): (r: Option<Decoded>)
    ensures r.Some? ==> LabelsFit(r.value.name, LABEL_SIZE)
    decreases start, |m| - pos
  {
    if pos >= |m| then None
    else
      var len := m[pos] as int;
      if len == 0 then Some(Decoded(Root, pos + 1))
      else if len <= LABEL_SIZE then
        if pos + 1 + len > |m| then None
        else
          match DecodeName(m, pos + 1 + len, start)
          case None => None
          case Some(rest) => Some(Decoded(Label(m[pos + 1..pos + 1 + len], rest.name), rest.next))
      else if len < 0xc0 || pos + 1 >= |m| then None
      else
        var offset := (len - 0xc0) * 0x100 + m[pos + 1] as int;
        if offset >= start then None
        else
          match DecodeName(m, offset, offset)
          case None => None
          case Some(rest) => Some(Decoded(rest.name, pos + 2))
  }

  function Get16(m: seq<byte>, pos: nat): Option<u16> {
    if pos + 2 <= |m| then Some(FromBigEndian16(m[pos..pos + 2])) else None
  }

  function Get32(m: seq<byte>, pos: nat): Option<u32> {
    if pos + 4 <= |m| then Some(FromBigEndian32(m[pos..pos + 4])) else None
  }

  datatype Record = Record(name: Name, rtype: u16, rclass: u16, ttl: u32, data: seq<byte>)

  datatype Update = Update(id: u16, zone: Name, record: Record)

  /** A whole UPDATE message with one zone, no prerequisite, one update record, and nothing after it. */
  function DecodeUpdate(m: seq<byte>): Option<Update> {
    var id :- Get16(m, 0);
    var flags :- Get16(m, 2);
    var zones :- Get16(m, 4);
    var prerequisites :- Get16(m, 6);
    var updates :- Get16(m, 8);
    var additional :- Get16(m, 10);
    if flags != OPCODE_UPDATE * 0x800 || zones != 1 || prerequisites != 0 || updates != 1 || additional != 0 then None
    else
      var zone :- DecodeName(m, HEADER_SIZE, HEADER_SIZE);
      var ztype :- Get16(m, zone.next);
      var zclass :- Get16(m, zone.next + 2);
      if ztype != TYPE_SOA || zclass != CLASS_IN then None
      else
        var record :- DecodeRecord(m, zone.next + 4);
        Some(Update(id, zone.name, record))
  }

  function DecodeRecord(m: seq<byte>, pos: nat): Option<Record> {
    var name :- DecodeName(m, pos, pos);
    var rtype :- Get16(m, name.next);
    var rclass :- Get16(m, name.next + 2);
    var ttl :- Get32(m, name.next + 4);
    var size :- Get16(m, name.next + 8);
    if name.next + 10 + size == |m| then Some(Record(name.name, rtype, rclass, ttl, m[name.next + 10..])) else None
  }

  // ----- Decoding what is encoded -----

  lemma DecodeEnd(m: seq<byte>, pos: nat, start: nat)
    requires pos < |m| && m[pos] == 0
    ensures DecodeName(m, pos, start) == Some(Decoded(Root, pos + 1))
  {
  }

  lemma DecodePointer(m: seq<byte>, pos: nat, start: nat)
    requires pos + 1 < |m| && m[pos] == 0xc0 && m[pos + 1] == HEADER_SIZE && HEADER_SIZE < start
    ensures DecodeName(m, pos, start) ==
            match DecodeName(m, HEADER_SIZE, HEADER_SIZE)
            case None => None
            case Some(rest) => Some(Decoded(rest.name, pos + 2))
  {
  }

  lemma DecodeLabel(m: seq<byte>, pos: nat, start: nat, h: seq<byte>)
    requires 0 < |h| <= LABEL_SIZE && At(m, pos, [|h|]) && At(m, pos + 1, h)
    ensures DecodeName(m, pos, start) ==
            match DecodeName(m, pos + 1 + |h|, start)
            case None => None
            case Some(rest) => Some(Decoded(Label(h, rest.name), rest.next))
  {
    AtOctet(m, pos, [|h|], 0);
  }

  /** Labels of at most 63 octets are read back, and then the name goes on after them. */
  lemma {:induction false} DecodeWire(m: seq<byte>, pos: nat, start: nat, n: Name)
    requires LabelsFit(n, LABEL_SIZE) && At(m, pos, Wire(n))
    ensures DecodeName(m, pos, start) ==
            match DecodeName(m, pos + |Wire(n)|, start)
            case None => None
            case Some(rest) => Some(Decoded(Append(n, rest.name), rest.next))
    decreases n
  {
    hide DecodeName, At;
    match n
    case Root =>
    case Label(h, t) =>
      AtSplit(m, pos, [|h| % 0x100] + h, Wire(t));
      AtSplit(m, pos, [|h| % 0x100], h);
      DecodeLabel(m, pos, start, h);
      DecodeWire(m, pos + 1 + |h|, start, t);
      assert pos + 1 + |h| + |Wire(t)| == pos + |Wire(n)|;
  }

  lemma {:induction false} AppendRoot(n: Name)
    ensures Append(n, Root) == n
  {
    if n.Label? {
      AppendRoot(n.tail);
    }
  }

  lemma DecodePlain(m: seq<byte>, pos: nat, n: Name)
    requires LabelsFit(n, LABEL_SIZE) && At(m, pos, Wire(n) + Ending(0))
    ensures DecodeName(m, pos, pos) == Some(Decoded(n, pos + |Wire(n)| + 1))
  {
    hide DecodeName, Wire, LabelsFit, Append;
    AtSplit(m, pos, Wire(n), Ending(0));
    AtOctet(m, pos + |Wire(n)|, Ending(0), 0);
    DecodeEnd(m, pos + |Wire(n)|, pos);
    DecodeWire(m, pos, pos, n);
    AppendRoot(n);
  }

  lemma DecodeCompressed(m: seq<byte>, pos: nat, n: Name, zone: Name)
    requires LabelsFit(n, LABEL_SIZE) && At(m, pos, Wire(n) + Ending(HEADER_SIZE))
    requires LabelsFit(zone, LABEL_SIZE) && At(m, HEADER_SIZE, Wire(zone) + Ending(0)) && HEADER_SIZE < pos
    ensures DecodeName(m, pos, pos) == Some(Decoded(Append(n, zone), pos + |Wire(n)| + 2))
  {
    hide DecodeName, Wire, LabelsFit, Append;
    AtSplit(m, pos, Wire(n), Ending(HEADER_SIZE));
    AtOctet(m, pos + |Wire(n)|, Ending(HEADER_SIZE), 0);
    AtOctet(m, pos + |Wire(n)|, Ending(HEADER_SIZE), 1);
    DecodePointer(m, pos + |Wire(n)|, pos);
    DecodePlain(m, HEADER_SIZE, zone);
    DecodeWire(m, pos, pos, n);
  }

  lemma Get16At(m: seq<byte>, pos: nat, x: u16)
    requires At(m, pos, BigEndian16(x))
    ensures Get16(m, pos) == Some(x)
  {
  }

  lemma Get32At(m: seq<byte>, pos: nat, x: u32)
    requires At(m, pos, BigEndian32(x))
    ensures Get32(m, pos) == Some(x)
  {
    BigEndian32RoundTrip(x);
  }

  /** What the record of a message says. */
  function RecordOf(name: Name, ttl: u32, aaaa: Aaaa): Record {
    match aaaa
    case Address(octets) => Record(name, TYPE_AAAA, CLASS_IN, ttl, octets)
    case _ => Record(name, TYPE_ANY, CLASS_ANY, 0, [])
  }

  lemma RecordParts(ttl: u32, aaaa: Aaaa)
    requires aaaa.Address? ==> |aaaa.octets| == AAAA_SIZE
    ensures
      var r := RecordOf(Root, ttl, aaaa);
      RecordData(ttl, aaaa) == BigEndian16(r.rtype) + BigEndian16(r.rclass) + BigEndian32(r.ttl)
                               + BigEndian16(|r.data|) + r.data
  {
    hide BigEndian16, BigEndian32;
  }

  lemma EndsWith(m: seq<byte>, pos: nat, w: seq<byte>)
    requires At(m, pos, w) && pos + |w| == |m|
    ensures m[pos..] == w
  {
  }

  lemma DecodeRecordData(m: seq<byte>, pos: nat, ttl: u32, aaaa: Aaaa)
    requires aaaa.Address? ==> |aaaa.octets| == AAAA_SIZE
    requires At(m, pos, RecordData(ttl, aaaa)) && pos + |RecordData(ttl, aaaa)| == |m|
    ensures
      var r := RecordOf(Root, ttl, aaaa);
      && Get16(m, pos) == Some(r.rtype) && Get16(m, pos + 2) == Some(r.rclass) && Get32(m, pos + 4) == Some(r.ttl)
      && Get16(m, pos + 8) == Some(|r.data|) && |r.data| < 0x1_0000
      && pos + 10 + |r.data| == |m| && m[pos + 10..] == r.data
  {
    hide BigEndian16, BigEndian32, Get16, Get32, At, RecordData;
    var r := RecordOf(Root, ttl, aaaa);
    var (a, b, c, d) := (BigEndian16(r.rtype), BigEndian16(r.rclass), BigEndian32(r.ttl), BigEndian16(|r.data|));
    RecordParts(ttl, aaaa);
    AtSplit(m, pos, a + b + c + d, r.data);
    AtSplit4(m, pos, a, b, c, d);
    EndsWith(m, pos + 10, r.data);
    Get16At(m, pos, r.rtype);
    Get16At(m, pos + 2, r.rclass);
    Get32At(m, pos + 4, r.ttl);
    Get16At(m, pos + 8, |r.data|);
  }

  lemma DecodeHeader(m: seq<byte>, id: u16)
    requires At(m, 0, Header(id))
    ensures Get16(m, 0) == Some(id) && Get16(m, 2) == Some(OPCODE_UPDATE * 0x800)
    ensures Get16(m, 4) == Some(1) && Get16(m, 6) == Some(0) && Get16(m, 8) == Some(1) && Get16(m, 10) == Some(0)
  {
    hide BigEndian16, Get16;
    var (a, b, z, u) := (BigEndian16(id), BigEndian16(OPCODE_UPDATE * 0x800), BigEndian16(0), BigEndian16(1));
    assert Header(id) == a + b + u + z + u + z;
    AtSplit(m, 0, a + b + u + z + u, z);
    AtSplit(m, 0, a + b + u + z, u);
    AtSplit(m, 0, a + b + u, z);
    AtSplit(m, 0, a + b, u);
    AtSplit(m, 0, a, b);
    Get16At(m, 0, id);
    Get16At(m, 2, OPCODE_UPDATE * 0x800);
    Get16At(m, 4, 1);
    Get16At(m, 6, 0);
    Get16At(m, 8, 1);
    Get16At(m, 10, 0);
  }

  lemma DecodeOwnRecord(m: seq<byte>, pos: nat, own: Name, zone: Name, ttl: u32, aaaa: Aaaa)
    requires aaaa.Address? ==> |aaaa.octets| == AAAA_SIZE
    requires LabelsFit(own, LABEL_SIZE) && At(m, pos, Wire(own) + Ending(HEADER_SIZE))
    requires LabelsFit(zone, LABEL_SIZE) && At(m, HEADER_SIZE, Wire(zone) + Ending(0)) && HEADER_SIZE < pos
    requires At(m, pos + |Wire(own)| + 2, RecordData(ttl, aaaa))
    requires pos + |Wire(own)| + 2 + |RecordData(ttl, aaaa)| == |m|
    ensures DecodeRecord(m, pos) == Some(RecordOf(Append(own, zone), ttl, aaaa))
  {
    hide DecodeName, Get16, Get32, Wire, LabelsFit, Append, RecordData, At;
    DecodeCompressed(m, pos, own, zone);
    DecodeRecordData(m, pos + |Wire(own)| + 2, ttl, aaaa);
  }

  lemma DecodeZone(m: seq<byte>, zone: Name)
    requires LabelsFit(zone, LABEL_SIZE)
    requires At(m, HEADER_SIZE, Wire(zone) + Ending(0) + (BigEndian16(TYPE_SOA) + BigEndian16(CLASS_IN)))
    ensures At(m, HEADER_SIZE, Wire(zone) + Ending(0))
    ensures
      var next := HEADER_SIZE + |Wire(zone)| + 1;
      && DecodeName(m, HEADER_SIZE, HEADER_SIZE) == Some(Decoded(zone, next))
      && Get16(m, next) == Some(TYPE_SOA) && Get16(m, next + 2) == Some(CLASS_IN)
  {
    hide DecodeName, Get16, Wire, LabelsFit, At, BigEndian16;
    var (wz, soa, cin) := (Wire(zone) + Ending(0), BigEndian16(TYPE_SOA), BigEndian16(CLASS_IN));
    AtSplit(m, HEADER_SIZE, wz, soa + cin);
    AtSplit(m, HEADER_SIZE + |wz|, soa, cin);
    DecodePlain(m, HEADER_SIZE, zone);
    Get16At(m, HEADER_SIZE + |wz|, TYPE_SOA);
    Get16At(m, HEADER_SIZE + |wz| + 2, CLASS_IN);
  }

  lemma DecodeBody(id: u16, domain: seq<byte>, name: seq<byte>, ttl: u32, aaaa: Aaaa)
    requires |name| <= LABEL_SIZE && LabelsFit(Labels(domain), LABEL_SIZE)
    requires aaaa.Address? ==> |aaaa.octets| == AAAA_SIZE
    ensures DecodeUpdate(Body(id, domain, name, ttl, aaaa)) ==
            Some(Update(id, Labels(domain), RecordOf(Append(Labels(name), Labels(domain)), ttl, aaaa)))
  {
    hide DecodeName, DecodeRecord, Get16, Wire, Labels, LabelsFit, Append, Header, RecordData, RecordOf, At;
    hide BigEndian16;
    var m := Body(id, domain, name, ttl, aaaa);
    var (zone, own) := (Labels(domain), Labels(name));
    var (wn, record) := (Wire(own) + Ending(HEADER_SIZE), RecordData(ttl, aaaa));
    assert m == Header(id) + Zone(domain) + wn + record;
    WholeIsAt(m);
    AtSplit4(m, 0, Header(id), Zone(domain), wn, record);
    DecodeHeader(m, id);
    DecodeZone(m, zone);
    ShortName(name);
    DecodeOwnRecord(m, HEADER_SIZE + |Zone(domain)|, own, zone, ttl, aaaa);
  }

  lemma WholeIsAt(m: seq<byte>)
    ensures At(m, 0, m)
  {
  }

  lemma ShortName(name: seq<byte>)
    requires |name| <= LABEL_SIZE
    ensures LabelsFit(Labels(name), LABEL_SIZE)
  {
    LabelsAreBounded(name, 0);
    FitWider(Labels(name), |name|, LABEL_SIZE);
  }

  /** A message means what it should exactly if no label of the domain is longer than 63 octets. */
  lemma BodyDecodesExactly(id: u16, domain: seq<byte>, name: seq<byte>, ttl: u32, aaaa: Aaaa)
    requires |name| <= LABEL_SIZE
    requires aaaa.Address? ==> |aaaa.octets| == AAAA_SIZE
    ensures DecodeUpdate(Body(id, domain, name, ttl, aaaa)) ==
            Some(Update(id, Labels(domain), RecordOf(Append(Labels(name), Labels(domain)), ttl, aaaa)))
            <==> LabelsFit(Labels(domain), LABEL_SIZE)
  {
    hide Body, Append, DecodeRecord;
    if LabelsFit(Labels(domain), LABEL_SIZE) {
      DecodeBody(id, domain, name, ttl, aaaa);
    }
  }

  /** A label of 64 octets: the decoder takes its length for neither a label nor a pointer. */
  lemma LongLabelDoesNotDecode(id: u16, name: seq<byte>, ttl: u32, aaaa: Aaaa)
    requires |name| <= LABEL_SIZE
    requires aaaa.Address? ==> |aaaa.octets| == AAAA_SIZE
    ensures
      var domain := seq(64, _ => 97);
      DecodeUpdate(Body(id, domain, name, ttl, aaaa)) == None
  {
    hide Header, RecordData, Ending, DecodeRecord, Get16, BigEndian16;
    var domain: seq<byte> := seq(64, _ => 97);
    var m := Body(id, domain, name, ttl, aaaa);
    FirstFromIs(domain, 0, |domain|, DOT);
    assert domain[0..|domain|] == domain;
    assert LabelsFrom(domain, |domain|) == Root;
    assert Labels(domain) == Label(domain, Root);
    assert m[HEADER_SIZE] == 64;
  }

  /**
   A whole message, octet by octet: section 2 of RFC 2136, with the type AAAA of RFC 3596. It adds the
   address ::1 to the name "a.b" in the zone "b", to be kept for 300 seconds.
   */
  lemma OneMessage()
    ensures
      var address := seq(15, _ => 0) + [1];
      Body(0x1234, [98], [97], 300, Address(address)) ==
        [0x12, 0x34, 0x28, 0x00, 0, 1, 0, 0, 0, 1, 0, 0]  // an update of one zone, by one record
        + [1, 98, 0, 0, 6, 0, 1]                          // b SOA IN
        + [1, 97, 0xc0, 12]                               // a, and then the name at octet 12
        + [0, 28, 0, 1, 0, 0, 1, 44, 0, 16] + address     // AAAA IN 300, and 16 octets
  {
    hide Header, Zone, RecordData, Wire, Labels, BigEndian16;
    OneLabel(97);
    OneHeader();
    OneZone();
    OneRecord();
  }

  /** And the one that deletes every record of that name. */
  lemma OneDeletion()
    ensures
      Body(0x1234, [98], [97], 300, Absent) ==
        [0x12, 0x34, 0x28, 0x00, 0, 1, 0, 0, 0, 1, 0, 0] + [1, 98, 0, 0, 6, 0, 1] + [1, 97, 0xc0, 12]
        + [0, 255, 0, 255, 0, 0, 0, 0, 0, 0]              // ANY ANY 0, and nothing
  {
    hide Header, Zone, RecordData, Wire, Labels, BigEndian16;
    OneLabel(97);
    OneHeader();
    OneZone();
    OneRecord();
  }

  lemma OneHeader()
    ensures Header(0x1234) == [0x12, 0x34, 0x28, 0x00, 0, 1, 0, 0, 0, 1, 0, 0]
    ensures Ending(HEADER_SIZE) == [0xc0, 12] && Ending(0) == [0]
  {
  }

  lemma OneZone()
    ensures Zone([98]) == [1, 98, 0, 0, 6, 0, 1]
  {
    hide Wire, Labels;
    OneLabel(98);
  }

  lemma OneRecord()
    ensures
      var address := seq(15, _ => 0) + [1];
      RecordData(300, Address(address)) == [0, 28, 0, 1, 0, 0, 1, 44, 0, 16] + address
    ensures RecordData(300, Absent) == [0, 255, 0, 255, 0, 0, 0, 0, 0, 0]
  {
  }

  lemma OneLabel(c: byte)
    requires c != DOT
    ensures Wire(Labels([c])) == [1, c]
  {
    FirstFromIs([c], 0, 1, DOT);
    assert [c][0..1] == [c];
    LabelFrom([c], 0, 1);
    NoMoreLabels([c]);
  }

  // ----- Writing the message -----

  /** ADD16. */
  method Add16(buffer: array<byte>, pos: nat, x: u16) returns (next: nat)
    requires pos + 2 <= buffer.Length
    modifies buffer
    ensures next == pos + 2 && buffer[..next] == old(buffer[..pos]) + BigEndian16(x)
  {
    buffer[pos], buffer[pos + 1] := x / 0x100, x % 0x100;
    next := pos + 2;
  }

  /** ADD32. */
  method Add32(buffer: array<byte>, pos: nat, x: u32) returns (next: nat)
    requires pos + 4 <= buffer.Length
    modifies buffer
    ensures next == pos + 4 && buffer[..next] == old(buffer[..pos]) + BigEndian32(x)
  {
    var w := BigEndian32(x);
    buffer[pos], buffer[pos + 1], buffer[pos + 2], buffer[pos + 3] := w[0], w[1], w[2], w[3];
    next := pos + 4;
  }

  /** memcpy. */
  method Copy(buffer: array<byte>, pos: nat, w: seq<byte>) returns (next: nat)
    requires pos + |w| <= buffer.Length
    modifies buffer
    ensures next == pos + |w| && buffer[..next] == old(buffer[..pos]) + w
  {
    forall k | 0 <= k < |w| { buffer[pos + k] := w[k]; }
    next := pos + |w|;
  }

  method PutLabel(buffer: array<byte>, pos: nat, piece: seq<byte>) returns (next: nat)
    requires pos + 1 + |piece| <= buffer.Length
    modifies buffer
    ensures next == pos + 1 + |piece| && buffer[..next] == old(buffer[..pos]) + ([|piece| % 0x100] + piece)
  {
    next := Copy(buffer, pos, [|piece| % 0x100]);
    next := Copy(buffer, next, piece);
  }

  lemma EmptyLabel(name: seq<byte>, i: nat)
    requires i < |name| && FirstFrom(name, i, DOT) == i
    ensures Wire(LabelsFrom(name, i)) == Wire(LabelsFrom(name, i + 1))
  {
    hide Wire;
  }

  lemma NextLabel(name: seq<byte>, i: nat, dot: nat)
    requires i < |name| && dot == FirstFrom(name, i, DOT) > i
    ensures Wire(LabelsFrom(name, i))
         == [(dot - i) % 0x100] + name[i..dot] + Wire(LabelsFrom(name, if dot < |name| then dot + 1 else dot))
  {
    hide LabelsFrom;
    LabelFrom(name, i, dot);
  }

  lemma NoLabel(name: seq<byte>)
    ensures Wire(LabelsFrom(name, |name|)) == []
  {
  }

  /** One pass of the loop of DNSNameEncode: a label, unless it is empty, and the dot after it. */
  method PutNext(buffer: array<byte>, pos: nat, name: seq<byte>, i: nat)
    returns (next: nat, i': nat, ghost piece: seq<byte>)
    requires i < |name| && pos + 1 + |name| - i <= buffer.Length
    modifies buffer
    ensures i < i' <= |name| && pos <= next <= pos + (i' - i) + 1 && (i' < |name| ==> next <= pos + (i' - i))
    ensures buffer[..next] == old(buffer[..pos]) + piece
    ensures Wire(LabelsFrom(name, i)) == piece + Wire(LabelsFrom(name, i'))
  {
    hide Wire, LabelsFrom, FirstFrom;
    var dot := FirstFrom(name, i, DOT);
    if dot > i {
      NextLabel(name, i, dot);
      piece := [(dot - i) % 0x100] + name[i..dot];
      next := PutLabel(buffer, pos, name[i..dot]);
      i' := if dot < |name| then dot + 1 else dot;
    } else {
      EmptyLabel(name, i);
      next, i', piece := pos, i + 1, [];
    }
  }

  method PutLabels(buffer: array<byte>, pos: nat, name: seq<byte>) returns (p: nat)
    requires pos + |name| + 1 <= buffer.Length
    modifies buffer
    ensures pos <= p <= pos + |name| + 1 && buffer[..p] == old(buffer[..pos]) + Wire(Labels(name))
  {
    hide Wire, LabelsFrom;
    p := pos;
    var i := 0;
    ghost var before, w := buffer[..pos], [];
    while i < |name|
      invariant i <= |name| && pos <= p <= pos + i + 1 && (i < |name| ==> p <= pos + i)
      invariant buffer[..p] == before + w
      invariant Wire(Labels(name)) == w + Wire(LabelsFrom(name, i))
    {
      ghost var piece;
      p, i, piece := PutNext(buffer, p, name, i);
      Regroup(before, w, piece);
      Regroup(w, piece, Wire(LabelsFrom(name, i)));
      w := w + piece;
    }
    NoLabel(name);
  }

  /** DNSNameEncode. Empty labels are skipped; a name that is too long is refused. */
  method NameEncode(buffer: array<byte>, pos: nat, name: seq<byte>, offset: u16) returns (rc: RCode, next: nat)
    requires pos + |name| + (if offset == 0 then 2 else 3) <= buffer.Length && offset < 0x4000
    modifies buffer
    ensures rc == if |name| > NAME_SIZE then FormErr else NoError
    ensures rc == FormErr ==> next == pos && buffer[..] == old(buffer[..])
    ensures rc == NoError ==> pos <= next <= pos + |name| + if offset == 0 then 2 else 3
    ensures rc == NoError ==> buffer[..next] == old(buffer[..pos]) + (Wire(Labels(name)) + Ending(offset))
  {
    hide Wire, Labels, Ending;
    if |name| > NAME_SIZE {
      return FormErr, pos;
    }
    rc := NoError;
    var p := PutLabels(buffer, pos, name);
    next := PutEnding(buffer, p, offset);
  }

  method PutEnding(buffer: array<byte>, pos: nat, offset: u16) returns (next: nat)
    requires pos + (if offset == 0 then 1 else 2) <= buffer.Length && offset < 0x4000
    modifies buffer
    ensures next == pos + (if offset == 0 then 1 else 2)
    ensures buffer[..next] == old(buffer[..pos]) + Ending(offset)
  {
    hide BigEndian16;
    if offset != 0 {
      next := Add16(buffer, pos, 0xc000 + offset);
    } else {
      next := Copy(buffer, pos, [0]);
    }
  }

  /**
   DNSMessageCreate: what is refused, and the message otherwise, with the number of octets that follow
   in front of it. A message never takes more than 301 of the 512 octets.
   */
  method MessageCreate(buffer: array<byte>, id: u16, domain: Option<seq<byte>>, name: Option<seq<byte>>,
                       ttl: u32, aaaa: Aaaa) returns (rc: RCode, len: nat)
    requires buffer.Length == BUFFER_SIZE
    requires aaaa.Address? ==> |aaaa.octets| == AAAA_SIZE
    modifies buffer
    ensures rc == NoError <==>
              && domain.Some? && name.Some? && !aaaa.Unreadable?
              && |name.value| + 1 + |domain.value| <= NAME_SIZE && |name.value| <= LABEL_SIZE
    ensures rc == NoError ==> 2 <= len <= 301
    ensures rc == NoError ==>
              buffer[..len] == BigEndian16(len - 2) + Body(id, domain.value, name.value, ttl, aaaa)
    ensures rc == NoError ==>  // the whole name keeps to the limit of section 2.3.4 of RFC 1035
              |Wire(Labels(name.value))| + |Wire(Labels(domain.value))| + 1 <= 255
  {
    hide Body, BigEndian16, Wire, LabelsFrom;
    rc, len := FormErr, 0;
    if name.None? || domain.None? {
      return;
    }
    if |name.value| + 1 + |domain.value| > NAME_SIZE || |name.value| > LABEL_SIZE {
      return;
    }
    if aaaa.Unreadable? {
      return;
    }
    WireSize(name.value, 0);
    WireSize(domain.value, 0);
    rc, len := WriteMessage(buffer, id, domain.value, name.value, ttl, aaaa);
  }

  /** The rest of DNSMessageCreate, once nothing can be refused any more. */
  method WriteMessage(buffer: array<byte>, id: u16, domain: seq<byte>, name: seq<byte>, ttl: u32, aaaa: Aaaa)
    returns (rc: RCode, len: nat)
    requires buffer.Length == BUFFER_SIZE && !aaaa.Unreadable?
    requires |name| + 1 + |domain| <= NAME_SIZE
    requires aaaa.Address? ==> |aaaa.octets| == AAAA_SIZE
    modifies buffer
    ensures rc == NoError && 2 <= len <= 301
    ensures buffer[..len] == BigEndian16(len - 2) + Body(id, domain, name, ttl, aaaa)
  {
    hide Wire, Labels, BigEndian16, Header, Zone, Ending, RecordData;
    ghost var skipped := buffer[..2];
    var p := WriteHeader(buffer, 2, id);
    p := WriteZone(buffer, p, domain);
    rc, p := NameEncode(buffer, p, name, HEADER_SIZE);
    len := WriteRecordData(buffer, p, ttl, aaaa);
    assert buffer[..len] == skipped + Body(id, domain, name, ttl, aaaa);
    SetLength(buffer, len);
  }

  /** ADD16 at the start of the buffer. */
  method SetLength(buffer: array<byte>, len: nat)
    requires 2 <= len <= buffer.Length && len - 2 < 0x1_0000
    modifies buffer
    ensures buffer[..len] == BigEndian16(len - 2) + old(buffer[2..len])
  {
    buffer[0], buffer[1] := (len - 2) / 0x100, (len - 2) % 0x100;
  }

  method WriteHeader(buffer: array<byte>, pos: nat, id: u16) returns (next: nat)
    requires pos + HEADER_SIZE <= buffer.Length
    modifies buffer
    ensures next == pos + HEADER_SIZE && buffer[..next] == old(buffer[..pos]) + Header(id)
  {
    hide BigEndian16;
    next := Add16(buffer, pos, id);
    next := Add16(buffer, next, OPCODE_UPDATE * 0x800);
    next := Add16(buffer, next, 1);
    next := Add16(buffer, next, 0);
    next := Add16(buffer, next, 1);
    next := Add16(buffer, next, 0);
  }

  method WriteZone(buffer: array<byte>, pos: nat, domain: seq<byte>) returns (next: nat)
    requires pos + |domain| + 6 <= buffer.Length && |domain| <= NAME_SIZE
    modifies buffer
    ensures next <= pos + |domain| + 6 && buffer[..next] == old(buffer[..pos]) + Zone(domain)
  {
    hide Wire, Labels, BigEndian16;
    var rc;
    rc, next := NameEncode(buffer, pos, domain, 0);
    next := Add16(buffer, next, TYPE_SOA);
    next := Add16(buffer, next, CLASS_IN);
  }

  method WriteRecordData(buffer: array<byte>, pos: nat, ttl: u32, aaaa: Aaaa) returns (next: nat)
    requires pos + 26 <= buffer.Length && !aaaa.Unreadable?
    requires aaaa.Address? ==> |aaaa.octets| == AAAA_SIZE
    modifies buffer
    ensures pos <= next <= pos + 26 && buffer[..next] == old(buffer[..pos]) + RecordData(ttl, aaaa)
  {
    hide BigEndian16, BigEndian32;
    next := Add16(buffer, pos, if aaaa.Address? then TYPE_AAAA else TYPE_ANY);
    next := Add16(buffer, next, if aaaa.Address? then CLASS_IN else CLASS_ANY);
    next := Add32(buffer, next, if aaaa.Address? then ttl else 0);
    next := Add16(buffer, next, if aaaa.Address? then AAAA_SIZE else 0);
    if aaaa.Address? {
      next := Copy(buffer, next, aaaa.octets);
    }
  }
}
