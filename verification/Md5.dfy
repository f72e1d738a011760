/**
 The streaming digest of md5c.c: a 64-octet carry buffer and a two-word bit counter. The class is
 proved against the one-shot definition of RFC 1321 (sections 3.1 to 3.5) on the octets fed so far.
 */
module Md5 {
  import opened Bytes
  import opened Md5Block
  import opened Words32

  const INITIAL: Registers := Registers(0x67452301, 0xefcdab89, 0x98badcfe, 0x10325476)
  const TWO64: int := 0x1_0000_0000_0000_0000

  // ----- The one-shot definition -----

  /** Section 3.4: every 64-octet block in turn. */
  function Chain(r: Registers, blocks: seq<byte>): Registers
    requires |blocks| % 64 == 0
    decreases |blocks|
  {
    if blocks == [] then r
    else
      var last := |blocks| - 64;
      Compress(Chain(r, blocks[..last]), blocks[last..])
  }

  /** Section 3.1: how many zero octets follow the octet 0x80. */
  function ZeroOctets(length: nat): (k: nat)
    ensures k < 64 && (length + 1 + k) % 64 == 56
  {
    (55 - length % 64) % 64
  }

  /** Section 3.2: the length in bits modulo 2^64, low-order word first. */
  function LengthOctets(length: nat): (bs: seq<byte>)
    ensures |bs| == 8
  {
    var bits := 8 * length % TWO64;
    Octets([bits % TWO32, bits / TWO32])
  }

  function Stretched(message: seq<byte>): (bs: seq<byte>)
    ensures |bs| % 64 == 56
  {
    message + [0x80] + seq(ZeroOctets(|message|), _ => 0)
  }

  lemma FillsBlocks(length: nat)
    requires length % 64 == 56
    ensures (length + 8) % 64 == 0
  {
  }

  function Padded(message: seq<byte>): (bs: seq<byte>)
    ensures |bs| % 64 == 0
  {
    var stretched, tail := Stretched(message), LengthOctets(|message|);
    FillsBlocks(|stretched|);
    stretched + tail
  }

  /** Section 3.5. */
  function Digest(message: seq<byte>): (bs: seq<byte>)
    ensures |bs| == 16
  {
    var Registers(a, b, c, d) := Chain(INITIAL, Padded(message));
    Octets([a, b, c, d])
  }

  lemma ChainAppend(r: Registers, done: seq<byte>, block: seq<byte>)
    requires |done| % 64 == 0 && |block| == 64
    ensures Chain(r, done + block) == Compress(Chain(r, done), block)
  {
    hide Compress;
    assert (done + block)[..|done|] == done && (done + block)[|done|..] == block;
  }

  // ----- Arithmetic of the bit counter -----

  /** The two counter words hold the number of bits modulo 2^64. */
  ghost predicate Counts(c0: u32, c1: u32, length: nat) {
    c0 + TWO32 * c1 == 8 * length % TWO64
  }

  /** The octet count modulo 64 is read back from the low counter word. */
  lemma CountsIndex(c0: u32, c1: u32, length: nat)
    requires Counts(c0, c1, length)
    ensures c0 / 8 % 64 == length % 64
  {
    var k := 8 * length / TWO64;
    assert 8 * length == TWO64 * k + c0 + TWO32 * c1;
    var q := 0x80_0000 * TWO32 * k + 0x80_0000 * c1;
    assert 8 * length == c0 + 512 * q;
    assert length == c0 / 8 + 64 * q;
  }

  function Low(c0: u32, added: u32): u32 {
    (c0 + 8 * added % TWO32) % TWO32
  }

  function High(c0: u32, c1: u32, added: u32): u32 {
    ((if Low(c0, added) < 8 * added % TWO32 then (c1 + 1) % TWO32 else c1) + added / 0x2000_0000) % TWO32
  }

  lemma LowWord(c0: u32, added: u32)
    ensures
      var carry := if Low(c0, added) < 8 * added % TWO32 then 1 else 0;
      c0 + 8 * added == Low(c0, added) + TWO32 * (carry + added / 0x2000_0000)
  {
    var shifted := 8 * added % TWO32;
    var top := added / 0x2000_0000;
    Quotient(8 * added, TWO32, top, 8 * (added % 0x2000_0000));
    var sum := c0 + shifted;
    if sum < TWO32 {
      Quotient(sum, TWO32, 0, sum);
    } else {
      Quotient(sum, TWO32, 1, sum - TWO32);
    }
  }

  lemma HighWord(c0: u32, c1: u32, added: u32) returns (wraps: nat)
    ensures
      var carry := if Low(c0, added) < 8 * added % TWO32 then 1 else 0;
      c1 + carry + added / 0x2000_0000 == High(c0, c1, added) + TWO32 * wraps
  {
    var top := added / 0x2000_0000;
    assert top < 8;
    var carry := if Low(c0, added) < 8 * added % TWO32 then 1 else 0;
    if carry == 1 && c1 == TWO32 - 1 {
      wraps := 1;
      Quotient(top, TWO32, 0, top);
    } else if c1 + carry + top < TWO32 {
      wraps := 0;
      Quotient(c1 + carry + top, TWO32, 0, c1 + carry + top);
    } else {
      wraps := 1;
      Quotient(c1 + carry + top, TWO32, 1, c1 + carry + top - TWO32);
    }
  }

  /** What MD5Update does to the two counter words is an addition modulo 2^64. */
  lemma CountsAdvance(c0: u32, c1: u32, length: nat, added: u32)
    requires Counts(c0, c1, length)
    ensures Counts(Low(c0, added), High(c0, c1, added), length + added)
  {
    var low, high := Low(c0, added), High(c0, c1, added);
    LowWord(c0, added);
    var wraps := HighWord(c0, c1, added);
    hide Low, High;
    var k := 8 * length / TWO64;
    assert 8 * length == TWO64 * k + c0 + TWO32 * c1;
    assert 8 * (length + added) == TWO64 * (k + wraps) + (low + TWO32 * high);
    Quotient(8 * (length + added), TWO64, k + wraps, low + TWO32 * high);
  }

  /** The value of the loop counter after k blocks; the loop is done once it exceeds the length less 64. */
  function LoopCounter(index: nat, k: nat): int {
    64 - index + 64 * k
  }

  /** The guard as computed in 32 bits says what it says in unbounded integers. */
  predicate GuardAgrees(i: int, length: u32) {
    (i + 63) % TWO32 < length <==> i + 63 < length
  }

  /**
   The guard of the block loop is right for every value the counter takes exactly if the pending octets
   and the new ones together stay below 2^32.
   */
  lemma LoopCounterFits(index: nat, length: u32)
    requires index < 64 <= index + length
    ensures (forall k: nat :: LoopCounter(index, k) <= length ==> GuardAgrees(LoopCounter(index, k), length))
            <==> index + length < TWO32
  {
    if index + length >= TWO32 {
      assert !GuardAgrees(LoopCounter(index, TWO32 / 64 - 1), length);
    }
  }

  // ----- The context -----

  /** The state words are the chaining value after the given whole blocks. */
  ghost predicate Chained(state: array<u32>, blocks: seq<byte>)
    reads state
  {
    state.Length == 4 && |blocks| % 64 == 0 && RegistersOf(state) == Chain(INITIAL, blocks)
  }

  const PADDING: seq<byte> := [0x80] + seq(63, _ => 0)

  /** The octets MD5Pad feeds are those of section 3.1. */
  lemma PaddingPrefix(length: nat, padLen: nat)
    requires padLen == if length % 64 < 56 then 56 - length % 64 else 120 - length % 64
    ensures padLen <= 64 && PADDING[..padLen] == [0x80] + seq(ZeroOctets(length), _ => 0)
  {
    assert padLen == 1 + ZeroOctets(length);
  }

  class Context {
    const state: array<u32>
    const count: array<u32>
    const buffer: array<byte>
    /** Everything fed since the start. */
    ghost var message: seq<byte>

    ghost predicate Shape()
      reads this
    {
      state.Length == 4 && count.Length == 2 && buffer.Length == 64 && state != count
    }

    /** All but the last `index` octets of the message are in the state, and those are buffered. */
    ghost predicate Pending(index: nat)
      reads this, state, buffer
    {
      && Shape() && index <= |message| && index < 64
      && Chained(state, message[..|message| - index])
      && buffer[..index] == message[|message| - index..]
    }

    ghost predicate Valid()
      reads this, state, count, buffer
    {
      && Pending(|message| % 64)
      && Counts(count[0], count[1], |message|)
    }

    /** MD5Init. The buffer keeps whatever it held. */
    constructor ()
      ensures Valid() && message == []
      ensures fresh(state) && fresh(count) && fresh(buffer)
    {
      hide Compress;
      state := new u32[4];
      count := new u32[2];
      buffer := new byte[64];
      message := [];
      new;
      count[0], count[1] := 0, 0;
      state[0], state[1], state[2], state[3] := 0x67452301, 0xefcdab89, 0x98badcfe, 0x10325476;
    }

    method Update(input: seq<byte>)
      requires Valid()
      requires |message| % 64 + |input| < TWO32
      modifies this, state, count, buffer
      ensures Valid() && message == old(message) + input
    {
      hide Chained, Counts;
      var inputLen: u32 := |input|;
      var index := count[0] / 8 % 64;
      CountsIndex(count[0], count[1], |message|);
      CountsAdvance(count[0], count[1], |message|, inputLen);

      var shifted := 8 * inputLen % TWO32;
      count[0] := (count[0] + shifted) % TWO32;
      if count[0] < shifted {
        count[1] := (count[1] + 1) % TWO32;
      }
      count[1] := (count[1] + inputLen / 0x2000_0000) % TWO32;

      Absorb(input, index);
    }

    /** The part of MD5Update that transforms whole blocks and keeps the rest. */
    method Absorb(input: seq<byte>, index0: nat)
      requires state != count && Pending(index0) && index0 == |message| % 64 && index0 + |input| < TWO32
      requires Counts(count[0], count[1], |message| + |input|)
      modifies this`message, state, buffer
      ensures Valid() && message == old(message) + input
    {
      hide *;
      var index := index0;
      var partLen := 64 - index;
      var i := 0;
      if partLen <= |input| {
        FillBuffer(input, index);
        i := TransformBlocks(input, partLen);
        index := 0;
        WholeBlocksDone(input, i);
      } else {
        NoBlockDone(input, index);
      }
      KeepRest(input, i, index);
    }

    /** i octets of the input are used; the last `index` octets used so far are still buffered. */
    ghost predicate Midway(input: seq<byte>, i: nat, index: nat)
      reads this, state, buffer
    {
      && Shape() && i <= |input| && index <= |message| && (i == 0 || index == 0)
      && index + |input| - i < 64 && (|message| + i - index) % 64 == 0
      && Chained(state, (message + input[..i])[..|message| + i - index])
      && buffer[..index] == message[|message| - index..]
    }

    lemma WholeBlocksDone(input: seq<byte>, i: nat)
      requires Shape() && i <= |input| < i + 64
      requires Chained(state, message + input[..i])
      ensures Midway(input, i, 0)
    {
      hide Chain;
      assert (message + input[..i])[..|message| + i] == message + input[..i];
    }

    lemma NoBlockDone(input: seq<byte>, index: nat)
      requires Pending(index) && index + |input| < 64
      ensures Midway(input, 0, index)
    {
      hide Chain;
      assert (message + input[..0])[..|message| - index] == message[..|message| - index];
    }

    /** Buffers the input that is left. */
    method KeepRest(input: seq<byte>, i: nat, index: nat)
      requires Midway(input, i, index)
      requires Counts(count[0], count[1], |message| + |input|)
      modifies this`message, buffer
      ensures Valid() && message == old(message) + input
    {
      hide Chained, Counts;
      forall k | 0 <= k < |input| - i {
        buffer[index + k] := input[i + k];
      }
      Rest(message, input, i, index);
      assert buffer[..index + |input| - i] == message[|message| - index..] + input[i..];
      message := message + input;
    }

    /** Completes the pending block and transforms it. */
    method FillBuffer(input: seq<byte>, index: nat)
      requires Pending(index) && index == |message| % 64 && 64 - index <= |input|
      modifies state, buffer
      ensures Shape() && (|message| + 64 - index) % 64 == 0
      ensures Chained(state, message + input[..64 - index])
    {
      hide Compress, Chain;
      forall k | 0 <= k < 64 - index {
        buffer[index + k] := input[k];
      }
      ghost var done := message[..|message| - index];
      assert buffer[..] == buffer[..index] + input[..64 - index];
      ChainAppend(INITIAL, done, buffer[..]);
      assert done + buffer[..] == message + input[..64 - index];
      Transform(state, buffer[..]);
    }

    /** The block loop, whose guard is computed in 32 bits. */
    method TransformBlocks(input: seq<byte>, partLen: nat) returns (i: nat)
      requires Shape()
      requires partLen <= 64 && partLen <= |input| && (|message| + partLen) % 64 == 0
      requires 64 - partLen + |input| < TWO32
      requires Chained(state, message + input[..partLen])
      modifies state
      ensures partLen <= i <= |input| < i + 64 && (|message| + i) % 64 == 0
      ensures Chained(state, message + input[..i])
    {
      hide Compress, Chain;
      i := partLen;
      ghost var blocks := 0;
      while (i + 63) % TWO32 < |input|
        invariant i == partLen + 64 * blocks && i <= |input| && (|message| + i) % 64 == 0
        invariant Chained(state, message + input[..i])
        decreases |input| - i
      {
        assert (i + 63) % TWO32 == i + 63;
        ChainAppend(INITIAL, message + input[..i], input[i..i + 64]);
        assert message + input[..i] + input[i..i + 64] == message + input[..i + 64];
        Transform(state, input[i..i + 64]);
        i, blocks := i + 64, blocks + 1;
      }
      assert (i + 63) % TWO32 == i + 63;
    }

    method Pad()
      requires Valid()
      modifies this, state, count, buffer
      ensures Valid() && message == Padded(old(message))
    {
      hide Chained, Counts, LengthOctets;
      var bits := new byte[8];
      Encode(bits, count, 8);
      ghost var m := message;
      EncodedCount(count[0], count[1], |m|);
      assert count[..2] == [count[0], count[1]];

      CountsIndex(count[0], count[1], |m|);
      var index := count[0] / 8 % 64;
      var padLen := if index < 56 then 56 - index else 120 - index;
      assert bits[..] == bits[..8] == LengthOctets(|m|);
      var length := bits[..];
      Update(PADDING[..padLen]);
      PaddingPrefix(|m|, padLen);
      Update(length);
      assert message == Padded(m);
    }

    /** MD5Final: the digest comes out and every word and octet of the context is zeroed. */
    method Final() returns (digest: array<byte>)
      requires Valid()
      modifies this, state, count, buffer
      ensures fresh(digest) && digest[..] == Digest(old(message))
      ensures forall k :: 0 <= k < 4 ==> state[k] == 0
      ensures count[0] == count[1] == 0
      ensures forall k :: 0 <= k < 64 ==> buffer[k] == 0
    {
      hide Compress, Chain, Counts, Padded;
      ghost var m := message;
      Pad();
      assert message[..|message|] == Padded(m);
      digest := new byte[16];
      Encode(digest, state, 16);
      assert state[..4] == [state[0], state[1], state[2], state[3]];
      assert digest[..] == digest[..16];
      forall k | 0 <= k < 4 {
        state[k] := 0;
      }
      count[0], count[1] := 0, 0;
      forall k | 0 <= k < 64 {
        buffer[k] := 0;
      }
    }
  }

  /** What is left over after the last whole block. */
  lemma Rest(message: seq<byte>, input: seq<byte>, i: nat, index: nat)
    requires i <= |input| && index <= |message| && (i == 0 || index == 0)
    requires index + |input| - i < 64 && (|message| + i - index) % 64 == 0
    ensures |message + input| % 64 == index + |input| - i
    ensures (message + input)[..|message| + i - index] == (message + input[..i])[..|message| + i - index]
    ensures (message + input)[|message| + i - index..] == message[|message| - index..] + input[i..]
  {
  }

  lemma EncodedCount(c0: u32, c1: u32, length: nat)
    requires Counts(c0, c1, length)
    ensures Octets([c0, c1]) == LengthOctets(length)
  {
    Quotient(8 * length % TWO64, TWO32, c1, c0);
  }

  function Concat(pieces: seq<seq<byte>>): seq<byte> {
    if pieces == [] then []
    else
      var last := |pieces| - 1;
      Concat(pieces[..last]) + pieces[last]
  }

  lemma ConcatSteps(pieces: seq<seq<byte>>)
    ensures Concat(pieces[..0]) == []
    ensures forall i :: 0 <= i < |pieces| ==> Concat(pieces[..i + 1]) == Concat(pieces[..i]) + pieces[i]
  {
    hide Chain, Words;
    forall i | 0 <= i < |pieces| ensures Concat(pieces[..i + 1]) == Concat(pieces[..i]) + pieces[i] {
      assert pieces[..i + 1][..i] == pieces[..i];
    }
  }

  /** Every way of cutting a message into updates gives the digest of the whole message. */
  method DigestOfPieces(pieces: seq<seq<byte>>) returns (digest: array<byte>)
    requires forall i :: 0 <= i < |pieces| ==> |pieces[i]| < TWO32 - 63
    ensures digest[..] == Digest(Concat(pieces))
  {
    hide *;
    ConcatSteps(pieces);
    var context := new Context();
    var i := 0;
    while i < |pieces|
      invariant 0 <= i <= |pieces|
      invariant context.Valid() && fresh(context.state) && fresh(context.count) && fresh(context.buffer)
      invariant context.message == Concat(pieces[..i])
    {
      context.Update(pieces[i]);
      i := i + 1;
    }
    assert pieces[..i] == pieces;
    digest := context.Final();
  }

  /** md5digest: one update with the whole string. */
  method DigestOfString(text: seq<byte>) returns (digest: array<byte>)
    requires |text| < TWO32
    ensures digest[..] == Digest(text)
  {
    hide *;
    var context := new Context();
    assert [] + text == text;
    context.Update(text);
    digest := context.Final();
  }
}
