/**
 The growable buffer of buffer.c, the typed puts and gets of bufaux.c, and why they make a FIFO.
 Where the source calls exit, the methods report it; nothing is said about the buffer afterwards.
 */
module Buffers {
  import opened Bytes

  const MAX_APPEND := 0x10_0000
  const MAX_ALLOC := 0xa0_0000
  const MAX_STRING := 256 * 1024

  /** The space left does not do, and moving the data to the front is not due or does not do either. */
  predicate MustGrow(alloc: nat, offset: nat, end: nat, len: nat) {
    var (o, e) := if offset == end then (0, 0) else (offset, end);
    e + len >= alloc && (o > alloc / 2 ==> e - o + len >= alloc)
  }

  class Buffer {
    var buf: array<byte>
    var offset: nat
    var end: nat

    ghost predicate Valid()
      reads this
    {
      offset <= end <= buf.Length
    }

    /** What was put and not taken yet. */
    ghost function Contents(): seq<byte>
      requires Valid()
      reads this, buf
    {
      buf[offset..end]
    }

    /** buffer_init. */
    constructor ()
      ensures Valid() && fresh(buf) && Contents() == [] && buf.Length == 4096
    {
      buf := new byte[4096];
      offset, end := 0, 0;
    }

    method Clear()
      requires Valid()
      modifies this`offset, this`end
      ensures Valid() && Contents() == []
    {
      offset, end := 0, 0;
    }

    function Len(): nat
      requires Valid()
      reads this, buf
      ensures Len() == |Contents()|
    {
      end - offset
    }

    /**
     buffer_append_space. The loop stands for the label `restart`: it is passed at most three times,
     moving the data at most once and growing at most once, and the data is never disturbed.
     */
    method AppendSpace(len: nat) returns (ok: bool, p: nat, ghost moves: nat, ghost growths: nat)
      requires Valid()
      modifies this, buf
      ensures Valid() && moves <= 1 && growths <= 1
      ensures ok <==> len <= MAX_APPEND &&
                      (old(MustGrow(buf.Length, offset, end, len)) ==> old(buf.Length) + len + 32768 <= MAX_ALLOC)
      ensures ok ==> end == p + len && offset <= p && buf[offset..p] == old(Contents())
      ensures buf == old(buf) || fresh(buf)
      ensures ok ==> growths == if old(MustGrow(buf.Length, offset, end, len)) then 1 else 0
      ensures growths == 0 ==> buf == old(buf)
    {
      ghost var contents := Contents();
      ok, p, moves, growths := false, 0, 0, 0;
      if len > MAX_APPEND {
        return;
      }
      if offset == end {
        offset, end := 0, 0;
      }
      ghost var passes := 0;
      while true
        invariant Valid() && Contents() == contents
        invariant passes == moves + growths <= 2
        invariant moves <= 1 && growths <= 1
        invariant moves == 1 ==> offset == 0
        invariant growths == 0 ==> buf == old(buf)
        invariant moves == growths == 0 ==> (offset, end) == if old(offset == end) then (0, 0) else old((offset, end))
        invariant moves == 1 && growths == 0 ==>
                    old(end + len >= buf.Length && offset > buf.Length / 2 && offset != end) && end == old(end - offset)
        invariant growths == 1 ==> end + len < buf.Length && old(MustGrow(buf.Length, offset, end, len))
        invariant growths == 1 ==> old(buf.Length) + len + 32768 <= MAX_ALLOC
        invariant buf == old(buf) || fresh(buf)
        decreases 2 - passes
      {
        if end + len < buf.Length {
          p := end;
          end := end + len;
          ok := true;
          return;
        }
        passes := passes + 1;
        if offset > buf.Length / 2 {
          MoveToFront();
          moves := moves + 1;
        } else {
          var newlen := buf.Length + len + 32768;
          if newlen > MAX_ALLOC {
            return;
          }
          Realloc(newlen);
          growths := growths + 1;
        }
      }
    }

    /** memmove to the start of the buffer. */
    method MoveToFront()
      requires Valid()
      modifies this`offset, this`end, buf
      ensures Valid() && offset == 0 && end == old(end - offset) && Contents() == old(Contents())
    {
      var n := end - offset;
      forall i | 0 <= i < n { buf[i] := buf[offset + i]; }
      offset, end := 0, n;
    }

    method Realloc(newlen: nat)
      requires Valid() && buf.Length <= newlen
      modifies this`buf
      ensures Valid() && fresh(buf) && buf.Length == newlen && Contents() == old(Contents())
    {
      var bigger := new byte[newlen];
      forall i | 0 <= i < buf.Length { bigger[i] := buf[i]; }
      buf := bigger;
    }

    /** buffer_append; reports whether the process goes on. */
    method Append(data: seq<byte>) returns (ok: bool)
      requires Valid()
      modifies this, buf
      ensures Valid() && (buf == old(buf) || fresh(buf))
      ensures ok ==> Contents() == old(Contents()) + data
      ensures ok <==> |data| <= MAX_APPEND &&
                      (old(MustGrow(buf.Length, offset, end, |data|)) ==> old(buf.Length) + |data| + 32768 <= MAX_ALLOC)
    {
      var p;
      ghost var moves, growths;
      ok, p, moves, growths := AppendSpace(|data|);
      if ok {
        ghost var kept := buf[offset..p];
        CopyIn(p, data);
        assert kept == buf[..p][offset..];
        assert Contents() == buf[offset..p] + buf[p..end];
      }
    }

    method CopyIn(p: nat, data: seq<byte>)
      requires p + |data| <= buf.Length
      modifies buf
      ensures buf[..p] == old(buf[..p]) && buf[p..p + |data|] == data
    {
      forall i | 0 <= i < |data| { buf[p + i] := data[i]; }
    }

    /** buffer_get: all or nothing. */
    method Get(dest: array<byte>, len: nat)
      requires Valid() && len <= dest.Length && dest != buf
      modifies this`offset, dest
      ensures Valid()
      ensures len > |old(Contents())| ==> Contents() == old(Contents()) && dest[..] == old(dest[..])
      ensures len <= |old(Contents())| ==>
                && Contents() == old(Contents())[len..]
                && dest[..len] == old(Contents())[..len] && dest[len..] == old(dest[len..])
    {
      if len > end - offset {
        return;
      }
      forall i | 0 <= i < len { dest[i] := buf[offset + i]; }
      offset := offset + len;
    }

    method Consume(bytes: nat)
      requires Valid()
      modifies this`offset
      ensures Valid()
      ensures Contents() == if bytes > |old(Contents())| then old(Contents()) else old(Contents())[bytes..]
    {
      if bytes > end - offset {
        return;
      }
      offset := offset + bytes;
    }

    method ConsumeEnd(bytes: nat)
      requires Valid()
      modifies this`end
      ensures Valid()
      ensures Contents() == if bytes > |old(Contents())| then old(Contents())
                            else old(Contents())[..|old(Contents())| - bytes]
    {
      if bytes > end - offset {
        return;
      }
      end := end - bytes;
    }

    // ----- bufaux.c -----

    method PutInt(value: u32) returns (ok: bool)
      requires Valid()
      modifies this, buf
      ensures Valid() && (buf == old(buf) || fresh(buf))
      ensures ok ==> Contents() == old(Contents()) + BigEndian32(value)
    {
      ok := Append(BigEndian32(value));
    }

    /** With fewer than four octets left nothing is taken, and the result is whatever was on the stack. */
    method GetInt() returns (value: u32)
      requires Valid()
      modifies this`offset
      ensures Valid()
      ensures |old(Contents())| >= 4 ==>
                Contents() == old(Contents())[4..] && value == FromBigEndian32(old(Contents())[..4])
      ensures |old(Contents())| < 4 ==> Contents() == old(Contents())
    {
      var four := new byte[4];
      Get(four, 4);
      value := FromBigEndian32(four[..]);
      assert four[..4] == four[..];
    }

    method PutOctet(value: int) returns (ok: bool)
      requires Valid()
      modifies this, buf
      ensures Valid() && (buf == old(buf) || fresh(buf))
      ensures ok ==> Contents() == old(Contents()) + [value % 0x100]
    {
      ok := Append([value % 0x100]);
    }

    method GetOctet() returns (value: byte)
      requires Valid()
      modifies this`offset
      ensures Valid()
      ensures |old(Contents())| >= 1 ==> Contents() == old(Contents())[1..] && value == old(Contents())[0]
      ensures |old(Contents())| < 1 ==> Contents() == old(Contents())
    {
      var one := new byte[1];
      Get(one, 1);
      value := one[0];
      assert one[..1] == [value];
    }

    method PutString(s: seq<byte>) returns (ok: bool)
      requires Valid() && |s| < TWO32
      modifies this, buf
      ensures Valid() && (buf == old(buf) || fresh(buf))
      ensures ok ==> Contents() == old(Contents()) + (BigEndian32(|s|) + s)
    {
      ok := PutInt(|s|);
      if ok {
        ok := Append(s);
      }
    }

    /** Refuses strings of more than 256 KiB, and does not look whether the octets are there. */
    method GetString() returns (ok: bool, s: seq<byte>)
      requires Valid()
      modifies this`offset
      ensures Valid()
      ensures |old(Contents())| >= 4 ==>
                var len := FromBigEndian32(old(Contents())[..4]);
                && (ok <==> len <= MAX_STRING)
                && (ok ==> |s| == len)
                && (ok && |old(Contents())| >= 4 + len ==>
                      s == old(Contents())[4..4 + len] && Contents() == old(Contents())[4 + len..])
                && (!ok || |old(Contents())| < 4 + len ==> Contents() == old(Contents())[4..])
      ensures |old(Contents())| < 4 ==>  // the length is then whatever was on the stack
                && (ok ==> |s| <= MAX_STRING)
                && (ok && |s| <= |old(Contents())| ==>
                      s == old(Contents())[..|s|] && Contents() == old(Contents())[|s|..])
                && (!ok || |old(Contents())| < |s| ==> Contents() == old(Contents()))
    {
      var len := GetInt();
      ok, s := false, [];
      if len > MAX_STRING {
        return;
      }
      var value := new byte[len + 1];
      Get(value, len);
      value[len] := 0;
      ok, s := true, value[..len];
    }
  }

  // ----- Whatever is put is got back in order -----

  datatype Item = IntItem(number: u32) | OctetItem(octet: byte) | StringItem(text: seq<byte>)

  datatype Shape = IntShape | OctetShape | StringShape

  function ShapeOf(item: Item): Shape {
    match item
    case IntItem(_) => IntShape
    case OctetItem(_) => OctetShape
    case StringItem(_) => StringShape
  }

  function Octets(item: Item): seq<byte> {
    match item
    case IntItem(number) => BigEndian32(number)
    case OctetItem(octet) => [octet]
    case StringItem(text) => BigEndian32(|text| % TWO32) + text
  }

  /** The octets of the items from position i on. */
  function Stream(items: seq<Item>, i: nat): seq<byte>
    requires i <= |items|
    decreases |items| - i
  {
    if i == |items| then [] else Octets(items[i]) + Stream(items, i + 1)
  }

  predicate Gettable(item: Item) {
    item.StringItem? ==> |item.text| <= MAX_STRING
  }

  method PutItem(b: Buffer, item: Item) returns (ok: bool)
    requires b.Valid() && Gettable(item)
    modifies b, b.buf
    ensures b.Valid() && (b.buf == old(b.buf) || fresh(b.buf))
    ensures ok ==> b.Contents() == old(b.Contents()) + Octets(item)
  {
    hide BigEndian32, MustGrow;
    match item
    case IntItem(number) => ok := b.PutInt(number);
    case OctetItem(octet) => ok := b.PutOctet(octet);
    case StringItem(text) => ok := b.PutString(text);
  }

  method PutAll(b: Buffer, items: seq<Item>) returns (ok: bool)
    requires b.Valid() && forall i :: 0 <= i < |items| ==> Gettable(items[i])
    modifies b, b.buf
    ensures b.Valid() && (b.buf == old(b.buf) || fresh(b.buf))
    ensures ok ==> b.Contents() == old(b.Contents()) + Stream(items, 0)
  {
    hide Octets, Gettable;
    ok := true;
    ghost var before, put := b.Contents(), [];
    var i := 0;
    while i < |items| && ok
      invariant i <= |items| && b.Valid() && (b.buf == old(b.buf) || fresh(b.buf))
      invariant ok ==> b.Contents() == before + put && Stream(items, 0) == put + Stream(items, i)
    {
      ok := PutItem(b, items[i]);
      Regroup(before, put, Octets(items[i]));
      Regroup(put, Octets(items[i]), Stream(items, i + 1));
      put := put + Octets(items[i]);
      i := i + 1;
    }
  }

  /** If the buffer starts with the octets of an item, a get of its shape returns it and leaves the rest. */
  method GetItem(b: Buffer, shape: Shape, ghost item: Item, ghost rest: seq<byte>) returns (ok: bool, got: Item)
    requires b.Valid() && shape == ShapeOf(item) && Gettable(item) && b.Contents() == Octets(item) + rest
    modifies b`offset
    ensures b.Valid() && ok && got == item && b.Contents() == rest
  {
    ok := true;
    match shape
    case IntShape =>
      BigEndian32RoundTrip(item.number);
      assert b.Contents()[..4] == BigEndian32(item.number);
      var number := b.GetInt();
      got := IntItem(number);
    case OctetShape =>
      var octet := b.GetOctet();
      got := OctetItem(octet);
    case StringShape =>
      BigEndian32RoundTrip(|item.text|);
      assert b.Contents()[..4] == BigEndian32(|item.text|);
      assert b.Contents()[4..4 + |item.text|] == item.text;
      assert b.Contents()[4 + |item.text|..] == rest;
      var text;
      ok, text := b.GetString();
      got := StringItem(text);
  }

  /** Gets of the same shapes in the same order return what was put, and leave what was put after it. */
  method GetAll(b: Buffer, shapes: seq<Shape>, ghost items: seq<Item>, ghost rest: seq<byte>)
    returns (ok: bool, got: seq<Item>)
    requires b.Valid() && |shapes| == |items| && forall i :: 0 <= i < |items| ==> Gettable(items[i])
    requires forall i :: 0 <= i < |items| ==> shapes[i] == ShapeOf(items[i])
    requires b.Contents() == Stream(items, 0) + rest
    modifies b`offset
    ensures b.Valid() && ok && got == items && b.Contents() == rest
  {
    hide Octets, Gettable, ShapeOf;
    ok, got := true, [];
    var i := 0;
    while i < |shapes|
      invariant i <= |items| && b.Valid() && ok
      invariant got == items[..i] && b.Contents() == Stream(items, i) + rest
    {
      Regroup(Octets(items[i]), Stream(items, i + 1), rest);
      var item;
      ok, item := GetItem(b, shapes[i], items[i], Stream(items, i + 1) + rest);
      got := got + [item];
      i := i + 1;
    }
  }

  /** The octets alone determine the items, given their shapes. */
  lemma {:induction false} StreamsAreUnambiguous(
    items: seq<Item>, others: seq<Item>, i: nat, rest: seq<byte>, tail: seq<byte>)
    requires i <= |items| == |others|
    requires forall k :: 0 <= k < |items| ==> ShapeOf(items[k]) == ShapeOf(others[k])
    requires forall k :: 0 <= k < |items| ==> Gettable(items[k]) && Gettable(others[k])
    requires Stream(items, i) + rest == Stream(others, i) + tail
    ensures items[i..] == others[i..] && rest == tail
    decreases |items| - i
  {
    hide Octets, Gettable, ShapeOf;
    if i < |items| {
      Regroup(Octets(items[i]), Stream(items, i + 1), rest);
      Regroup(Octets(others[i]), Stream(others, i + 1), tail);
      OctetsAreUnambiguous(items[i], others[i], Stream(items, i + 1) + rest, Stream(others, i + 1) + tail);
      StreamsAreUnambiguous(items, others, i + 1, rest, tail);
      assert items[i..] == [items[i]] + items[i + 1..];
      assert others[i..] == [others[i]] + others[i + 1..];
    } else {
      Prefixes([], rest, [], tail);
    }
  }

  lemma Prefixes(a: seq<byte>, b: seq<byte>, c: seq<byte>, d: seq<byte>)
    requires |a| == |c| && a + b == c + d
    ensures a == c && b == d
  {
    assert a == (a + b)[..|a|] && b == (a + b)[|a|..];
  }

  lemma SameStrings(n: seq<byte>, s: seq<byte>, rest: seq<byte>, m: seq<byte>, t: seq<byte>, tail: seq<byte>)
    requires |n| == |m| && (n == m ==> |s| == |t|)
    requires (n + s) + rest == (m + t) + tail
    ensures s == t && rest == tail
  {
    Regroup(n, s, rest);
    Regroup(m, t, tail);
    Prefixes(n, s + rest, m, t + tail);
    Prefixes(s, rest, t, tail);
  }

  lemma OctetsAreUnambiguous(item: Item, other: Item, rest: seq<byte>, tail: seq<byte>)
    requires ShapeOf(item) == ShapeOf(other) && Gettable(item) && Gettable(other)
    requires Octets(item) + rest == Octets(other) + tail
    ensures item == other && rest == tail
  {
    hide BigEndian32, FromBigEndian32;
    match item
    case IntItem(number) =>
      BigEndian32RoundTrip(number);
      BigEndian32RoundTrip(other.number);
      Prefixes(BigEndian32(number), rest, BigEndian32(other.number), tail);
    case OctetItem(octet) =>
      Prefixes([octet], rest, [other.octet], tail);
    case StringItem(text) =>
      BigEndian32RoundTrip(|text|);
      BigEndian32RoundTrip(|other.text|);
      SameStrings(BigEndian32(|text|), text, rest, BigEndian32(|other.text|), other.text, tail);
  }
}
