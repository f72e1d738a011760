/**
 The block function of MD5 (md5c.c): the word codecs, the sixty-four unrolled steps, and the
 table-driven form of section 3.4 of RFC 1321 that the unrolled code has to agree with.
 */
module Md5Block {
  import opened Bytes
  import opened Words32

  datatype Registers = Registers(a: u32, b: u32, c: u32, d: u32)

  // ----- The basic functions and macros of the source -----

  function F(x: u32, y: u32, z: u32): u32 { Or(And(x, y), And(Not(x), z)) }

  function G(x: u32, y: u32, z: u32): u32 { Or(And(x, z), And(y, Not(z))) }

  function H(x: u32, y: u32, z: u32): u32 { Xor(Xor(x, y), z) }

  function I(x: u32, y: u32, z: u32): u32 { Xor(y, Or(x, Not(z))) }

  /** F takes the digit of y where x has one and that of z where it has none. */
  lemma FBit(x: u32, y: u32, z: u32, i: nat)
    requires i < 32
    ensures Bit(F(x, y, z), i) <==> if Bit(x, i) then Bit(y, i) else Bit(z, i)
  {
    hide Bit, And, Or, Not;
    AndBit(x, y, i);
    NotBit(x, i);
    AndBit(Not(x), z, i);
    OrBit(And(x, y), And(Not(x), z), i);
  }

  /** G takes the digit of x where z has one and that of y where it has none. */
  lemma GBit(x: u32, y: u32, z: u32, i: nat)
    requires i < 32
    ensures Bit(G(x, y, z), i) <==> if Bit(z, i) then Bit(x, i) else Bit(y, i)
  {
    hide Bit, And, Or, Not;
    AndBit(x, z, i);
    NotBit(z, i);
    AndBit(y, Not(z), i);
    OrBit(And(x, z), And(y, Not(z)), i);
  }

  /** H has a digit where an odd number of the three has. */
  lemma HBit(x: u32, y: u32, z: u32, i: nat)
    requires i < 32
    ensures Bit(H(x, y, z), i) <==> ((Bit(x, i) != Bit(y, i)) != Bit(z, i))
  {
    hide Bit, Xor;
    XorBit(x, y, i);
    XorBit(Xor(x, y), z, i);
  }

  lemma IBit(x: u32, y: u32, z: u32, i: nat)
    requires i < 32
    ensures Bit(I(x, y, z), i) <==> (Bit(y, i) != (Bit(x, i) || !Bit(z, i)))
  {
    hide Bit, Or, Xor, Not;
    NotBit(z, i);
    OrBit(x, Not(z), i);
    XorBit(y, Or(x, Not(z)), i);
  }

  /** The common tail of FF, GG, HH and II; additions are modulo 2^32. */
  function Mix(a: u32, b: u32, mixed: u32, x: u32, s: nat, ac: u32): u32
    requires s < 32
  {
    (RotateLeft((a + mixed + x + ac) % TWO32, s) + b) % TWO32
  }

  function FF(a: u32, b: u32, c: u32, d: u32, x: u32, s: nat, ac: u32): u32
    requires s < 32
  {
    Mix(a, b, F(b, c, d), x, s, ac)
  }

  function GG(a: u32, b: u32, c: u32, d: u32, x: u32, s: nat, ac: u32): u32
    requires s < 32
  {
    Mix(a, b, G(b, c, d), x, s, ac)
  }

  function HH(a: u32, b: u32, c: u32, d: u32, x: u32, s: nat, ac: u32): u32
    requires s < 32
  {
    Mix(a, b, H(b, c, d), x, s, ac)
  }

  function II(a: u32, b: u32, c: u32, d: u32, x: u32, s: nat, ac: u32): u32
    requires s < 32
  {
    Mix(a, b, I(b, c, d), x, s, ac)
  }

  // ----- Section 3.4 of RFC 1321, driven by tables -----

  /** T[i + 1] of the RFC: the integer part of 4294967296 * abs(sin(i + 1)). */
  function Sine(i: nat): u32
    requires i < 64
  {
    match i / 16
    case 0 => Sine1(i)
    case 1 => Sine2(i)
    case 2 => Sine3(i)
    case _ => Sine4(i)
  }

  function Sine1(i: nat): u32 {
    match i
    case 0 => 0xd76aa478 case 1 => 0xe8c7b756 case 2 => 0x242070db case 3 => 0xc1bdceee
    case 4 => 0xf57c0faf case 5 => 0x4787c62a case 6 => 0xa8304613 case 7 => 0xfd469501
    case 8 => 0x698098d8 case 9 => 0x8b44f7af case 10 => 0xffff5bb1 case 11 => 0x895cd7be
    case 12 => 0x6b901122 case 13 => 0xfd987193 case 14 => 0xa679438e case _ => 0x49b40821
  }

  function Sine2(i: nat): u32 {
    match i
    case 16 => 0xf61e2562 case 17 => 0xc040b340 case 18 => 0x265e5a51 case 19 => 0xe9b6c7aa
    case 20 => 0xd62f105d case 21 => 0x02441453 case 22 => 0xd8a1e681 case 23 => 0xe7d3fbc8
    case 24 => 0x21e1cde6 case 25 => 0xc33707d6 case 26 => 0xf4d50d87 case 27 => 0x455a14ed
    case 28 => 0xa9e3e905 case 29 => 0xfcefa3f8 case 30 => 0x676f02d9 case _ => 0x8d2a4c8a
  }

  function Sine3(i: nat): u32 {
    match i
    case 32 => 0xfffa3942 case 33 => 0x8771f681 case 34 => 0x6d9d6122 case 35 => 0xfde5380c
    case 36 => 0xa4beea44 case 37 => 0x4bdecfa9 case 38 => 0xf6bb4b60 case 39 => 0xbebfbc70
    case 40 => 0x289b7ec6 case 41 => 0xeaa127fa case 42 => 0xd4ef3085 case 43 => 0x04881d05
    case 44 => 0xd9d4d039 case 45 => 0xe6db99e5 case 46 => 0x1fa27cf8 case _ => 0xc4ac5665
  }

  function Sine4(i: nat): u32 {
    match i
    case 48 => 0xf4292244 case 49 => 0x432aff97 case 50 => 0xab9423a7 case 51 => 0xfc93a039
    case 52 => 0x655b59c3 case 53 => 0x8f0ccc92 case 54 => 0xffeff47d case 55 => 0x85845dd1
    case 56 => 0x6fa87e4f case 57 => 0xfe2ce6e0 case 58 => 0xa3014314 case 59 => 0x4e0811a1
    case 60 => 0xf7537e82 case 61 => 0xbd3af235 case 62 => 0x2ad7d2bb case _ => 0xeb86d391
  }

  /** Which word of the block operation i reads. */
  function WordIndex(i: nat): (k: nat)
    requires i < 64
    ensures k < 16
  {
    if i < 16 then i else if i < 32 then (5 * i + 1) % 16 else if i < 48 then (3 * i + 5) % 16 else 7 * i % 16
  }

  /** How far operation i rotates. */
  function Shift(i: nat): (s: nat)
    requires i < 64
    ensures s < 32
  {
    var column := i % 4;
    if i < 16 then [7, 12, 17, 22][column]
    else if i < 32 then [5, 9, 14, 20][column]
    else if i < 48 then [4, 11, 16, 23][column]
    else [6, 10, 15, 21][column]
  }

  function Mixed(i: nat, b: u32, c: u32, d: u32): u32
    requires i < 64
  {
    if i < 16 then F(b, c, d) else if i < 32 then G(b, c, d) else if i < 48 then H(b, c, d) else I(b, c, d)
  }

  /** The registers, rotated one place by every operation, after the first n operations of a round. */
  function Round(r: Registers, x: seq<u32>, round: nat, n: nat): Registers
    requires |x| == 16 && round < 4 && n <= 16
    decreases n
  {
    if n == 0 then r
    else
      var i := 16 * round + n - 1;
      var Registers(a, b, c, d) := Round(r, x, round, n - 1);
      Registers(d, Mix(a, b, Mixed(i, b, c, d), x[WordIndex(i)], Shift(i), Sine(i)), b, c)
  }

  /** The words of a block, low-order octet first (section 2 of the RFC). */
  function Words(block: seq<byte>): (ws: seq<u32>)
    requires |block| % 4 == 0
    ensures |ws| == |block| / 4
  {
    if block == [] then []
    else
      var last := |block| - 4;
      Words(block[..last]) + [FromLittleEndian32(block[last..])]
  }

  function Octets(ws: seq<u32>): (bs: seq<byte>)
    ensures |bs| == 4 * |ws|
  {
    if ws == [] then []
    else
      var last := |ws| - 1;
      Octets(ws[..last]) + LittleEndian32(ws[last])
  }

  lemma OctetsAppend(ws: seq<u32>, w: u32)
    ensures Octets(ws + [w]) == Octets(ws) + LittleEndian32(w)
  {
    assert (ws + [w])[..|ws|] == ws;
  }

  function Rounds(r: Registers, x: seq<u32>): Registers
    requires |x| == 16
  {
    hide Round;
    Round(Round(Round(Round(r, x, 0, |x|), x, 1, |x|), x, 2, |x|), x, 3, |x|)
  }

  function Compress(r: Registers, block: seq<byte>): Registers
    requires |block| == 64
  {
    hide Rounds, Words;
    var after := Rounds(r, Words(block));
    Registers((r.a + after.a) % TWO32, (r.b + after.b) % TWO32, (r.c + after.c) % TWO32, (r.d + after.d) % TWO32)
  }

  // ----- The codecs of the source -----

  lemma WordsAppend(done: seq<byte>, last: seq<byte>)
    requires |done| % 4 == 0 && |last| == 4
    ensures Words(done + last) == Words(done) + [FromLittleEndian32(last)]
  {
    assert (done + last)[..|done|] == done && (done + last)[|done|..] == last;
  }

  /** Decoding what was encoded gives the words back: the two codecs agree on the octet order. */
  lemma {:induction false} WordsOfOctets(ws: seq<u32>)
    ensures Words(Octets(ws)) == ws
  {
    if ws != [] {
      var last := |ws| - 1;
      LittleEndian32RoundTrip(ws[last]);
      WordsAppend(Octets(ws[..last]), LittleEndian32(ws[last]));
      WordsOfOctets(ws[..last]);
    }
  }

  method Encode(output: array<byte>, input: array<u32>, len: nat)
    requires len % 4 == 0 && len <= output.Length && len / 4 <= input.Length
    modifies output
    ensures output[..len] == Octets(input[..len / 4])
    ensures output[len..] == old(output[len..])
  {
    var i, j := 0, 0;
    while j < len
      invariant j == 4 * i && j <= len
      invariant output[..j] == Octets(input[..i])
      invariant output[len..] == old(output[len..])
    {
      ghost var done := output[..j];
      var bits := LittleEndian32(input[i]);
      output[j], output[j + 1], output[j + 2], output[j + 3] := bits[0], bits[1], bits[2], bits[3];
      assert output[..j + 4] == done + bits;
      assert input[..i + 1][..i] == input[..i];
      i, j := i + 1, j + 4;
    }
  }

  method Decode(output: array<u32>, input: seq<byte>)
    requires |input| % 4 == 0 && |input| / 4 == output.Length
    modifies output
    ensures output[..] == Words(input)
  {
    hide Words, FromLittleEndian32;
    var i, j := 0, 0;
    NoWords();
    while j < |input|
      invariant j == 4 * i && j <= |input|
      invariant output[..i] == Words(input[..j])
    {
      NextWord(input, j);
      output[i] := input[j] as int + 0x100 * input[j + 1] as int + 0x1_0000 * input[j + 2] as int
                   + 0x100_0000 * input[j + 3] as int;
      i, j := i + 1, j + 4;
    }
    assert input[..j] == input;
  }

  lemma NoWords()
    ensures Words([]) == []
  {
  }

  lemma NextWord(input: seq<byte>, j: nat)
    requires j + 4 <= |input| && j % 4 == 0
    ensures Words(input[..j + 4]) == Words(input[..j]) +
      [input[j] as int + 0x100 * input[j + 1] as int + 0x1_0000 * input[j + 2] as int
       + 0x100_0000 * input[j + 3] as int]
  {
    var word := input[j..j + 4];
    assert input[..j + 4] == input[..j] + word;
    WordsAppend(input[..j], word);
  }

  // ----- MD5Transform -----

  ghost function RegistersOf(state: array<u32>): Registers
    requires state.Length == 4
    reads state
  {
    Registers(state[0], state[1], state[2], state[3])
  }

  method Round1(a0: u32, b0: u32, c0: u32, d0: u32, x: seq<u32>)
    returns (a: u32, b: u32, c: u32, d: u32)
    requires |x| == 16
    ensures Registers(a, b, c, d) == Round(Registers(a0, b0, c0, d0), x, 0, |x|)
  {
    ghost var r, n := Registers(a0, b0, c0, d0), |x| - 16;
    hide Mix, F, G, H, I;
    a, b, c, d := a0, b0, c0, d0;
    a := FF(a, b, c, d, x[0], 7, 0xd76aa478);
    assert Registers(d, a, b, c) == Round(r, x, 0, n + 1);
    d := FF(d, a, b, c, x[1], 12, 0xe8c7b756);
    assert Registers(c, d, a, b) == Round(r, x, 0, n + 2);
    c := FF(c, d, a, b, x[2], 17, 0x242070db);
    assert Registers(b, c, d, a) == Round(r, x, 0, n + 3);
    b := FF(b, c, d, a, x[3], 22, 0xc1bdceee);
    assert Registers(a, b, c, d) == Round(r, x, 0, n + 4);
    a := FF(a, b, c, d, x[4], 7, 0xf57c0faf);
    assert Registers(d, a, b, c) == Round(r, x, 0, n + 5);
    d := FF(d, a, b, c, x[5], 12, 0x4787c62a);
    assert Registers(c, d, a, b) == Round(r, x, 0, n + 6);
    c := FF(c, d, a, b, x[6], 17, 0xa8304613);
    assert Registers(b, c, d, a) == Round(r, x, 0, n + 7);
    b := FF(b, c, d, a, x[7], 22, 0xfd469501);
    assert Registers(a, b, c, d) == Round(r, x, 0, n + 8);
    a := FF(a, b, c, d, x[8], 7, 0x698098d8);
    assert Registers(d, a, b, c) == Round(r, x, 0, n + 9);
    d := FF(d, a, b, c, x[9], 12, 0x8b44f7af);
    assert Registers(c, d, a, b) == Round(r, x, 0, n + 10);
    c := FF(c, d, a, b, x[10], 17, 0xffff5bb1);
    assert Registers(b, c, d, a) == Round(r, x, 0, n + 11);
    b := FF(b, c, d, a, x[11], 22, 0x895cd7be);
    assert Registers(a, b, c, d) == Round(r, x, 0, n + 12);
    a := FF(a, b, c, d, x[12], 7, 0x6b901122);
    assert Registers(d, a, b, c) == Round(r, x, 0, n + 13);
    d := FF(d, a, b, c, x[13], 12, 0xfd987193);
    assert Registers(c, d, a, b) == Round(r, x, 0, n + 14);
    c := FF(c, d, a, b, x[14], 17, 0xa679438e);
    assert Registers(b, c, d, a) == Round(r, x, 0, n + 15);
    b := FF(b, c, d, a, x[15], 22, 0x49b40821);
    assert Registers(a, b, c, d) == Round(r, x, 0, n + 16);
  }

  method Round2(a0: u32, b0: u32, c0: u32, d0: u32, x: seq<u32>)
    returns (a: u32, b: u32, c: u32, d: u32)
    requires |x| == 16
    ensures Registers(a, b, c, d) == Round(Registers(a0, b0, c0, d0), x, 1, |x|)
  {
    ghost var r, n := Registers(a0, b0, c0, d0), |x| - 16;
    hide Mix, F, G, H, I;
    a, b, c, d := a0, b0, c0, d0;
    a := GG(a, b, c, d, x[1], 5, 0xf61e2562);
    assert Registers(d, a, b, c) == Round(r, x, 1, n + 1);
    d := GG(d, a, b, c, x[6], 9, 0xc040b340);
    assert Registers(c, d, a, b) == Round(r, x, 1, n + 2);
    c := GG(c, d, a, b, x[11], 14, 0x265e5a51);
    assert Registers(b, c, d, a) == Round(r, x, 1, n + 3);
    b := GG(b, c, d, a, x[0], 20, 0xe9b6c7aa);
    assert Registers(a, b, c, d) == Round(r, x, 1, n + 4);
    a := GG(a, b, c, d, x[5], 5, 0xd62f105d);
    assert Registers(d, a, b, c) == Round(r, x, 1, n + 5);
    d := GG(d, a, b, c, x[10], 9, 0x2441453);
    assert Registers(c, d, a, b) == Round(r, x, 1, n + 6);
    c := GG(c, d, a, b, x[15], 14, 0xd8a1e681);
    assert Registers(b, c, d, a) == Round(r, x, 1, n + 7);
    b := GG(b, c, d, a, x[4], 20, 0xe7d3fbc8);
    assert Registers(a, b, c, d) == Round(r, x, 1, n + 8);
    a := GG(a, b, c, d, x[9], 5, 0x21e1cde6);
    assert Registers(d, a, b, c) == Round(r, x, 1, n + 9);
    d := GG(d, a, b, c, x[14], 9, 0xc33707d6);
    assert Registers(c, d, a, b) == Round(r, x, 1, n + 10);
    c := GG(c, d, a, b, x[3], 14, 0xf4d50d87);
    assert Registers(b, c, d, a) == Round(r, x, 1, n + 11);
    b := GG(b, c, d, a, x[8], 20, 0x455a14ed);
    assert Registers(a, b, c, d) == Round(r, x, 1, n + 12);
    a := GG(a, b, c, d, x[13], 5, 0xa9e3e905);
    assert Registers(d, a, b, c) == Round(r, x, 1, n + 13);
    d := GG(d, a, b, c, x[2], 9, 0xfcefa3f8);
    assert Registers(c, d, a, b) == Round(r, x, 1, n + 14);
    c := GG(c, d, a, b, x[7], 14, 0x676f02d9);
    assert Registers(b, c, d, a) == Round(r, x, 1, n + 15);
    b := GG(b, c, d, a, x[12], 20, 0x8d2a4c8a);
    assert Registers(a, b, c, d) == Round(r, x, 1, n + 16);
  }

  method Round3(a0: u32, b0: u32, c0: u32, d0: u32, x: seq<u32>)
    returns (a: u32, b: u32, c: u32, d: u32)
    requires |x| == 16
    ensures Registers(a, b, c, d) == Round(Registers(a0, b0, c0, d0), x, 2, |x|)
  {
    ghost var r, n := Registers(a0, b0, c0, d0), |x| - 16;
    hide Mix, F, G, H, I;
    a, b, c, d := a0, b0, c0, d0;
    a := HH(a, b, c, d, x[5], 4, 0xfffa3942);
    assert Registers(d, a, b, c) == Round(r, x, 2, n + 1);
    d := HH(d, a, b, c, x[8], 11, 0x8771f681);
    assert Registers(c, d, a, b) == Round(r, x, 2, n + 2);
    c := HH(c, d, a, b, x[11], 16, 0x6d9d6122);
    assert Registers(b, c, d, a) == Round(r, x, 2, n + 3);
    b := HH(b, c, d, a, x[14], 23, 0xfde5380c);
    assert Registers(a, b, c, d) == Round(r, x, 2, n + 4);
    a := HH(a, b, c, d, x[1], 4, 0xa4beea44);
    assert Registers(d, a, b, c) == Round(r, x, 2, n + 5);
    d := HH(d, a, b, c, x[4], 11, 0x4bdecfa9);
    assert Registers(c, d, a, b) == Round(r, x, 2, n + 6);
    c := HH(c, d, a, b, x[7], 16, 0xf6bb4b60);
    assert Registers(b, c, d, a) == Round(r, x, 2, n + 7);
    b := HH(b, c, d, a, x[10], 23, 0xbebfbc70);
    assert Registers(a, b, c, d) == Round(r, x, 2, n + 8);
    a := HH(a, b, c, d, x[13], 4, 0x289b7ec6);
    assert Registers(d, a, b, c) == Round(r, x, 2, n + 9);
    d := HH(d, a, b, c, x[0], 11, 0xeaa127fa);
    assert Registers(c, d, a, b) == Round(r, x, 2, n + 10);
    c := HH(c, d, a, b, x[3], 16, 0xd4ef3085);
    assert Registers(b, c, d, a) == Round(r, x, 2, n + 11);
    b := HH(b, c, d, a, x[6], 23, 0x4881d05);
    assert Registers(a, b, c, d) == Round(r, x, 2, n + 12);
    a := HH(a, b, c, d, x[9], 4, 0xd9d4d039);
    assert Registers(d, a, b, c) == Round(r, x, 2, n + 13);
    d := HH(d, a, b, c, x[12], 11, 0xe6db99e5);
    assert Registers(c, d, a, b) == Round(r, x, 2, n + 14);
    c := HH(c, d, a, b, x[15], 16, 0x1fa27cf8);
    assert Registers(b, c, d, a) == Round(r, x, 2, n + 15);
    b := HH(b, c, d, a, x[2], 23, 0xc4ac5665);
    assert Registers(a, b, c, d) == Round(r, x, 2, n + 16);
  }

  method Round4(a0: u32, b0: u32, c0: u32, d0: u32, x: seq<u32>)
    returns (a: u32, b: u32, c: u32, d: u32)
    requires |x| == 16
    ensures Registers(a, b, c, d) == Round(Registers(a0, b0, c0, d0), x, 3, |x|)
  {
    ghost var r, n := Registers(a0, b0, c0, d0), |x| - 16;
    hide Mix, F, G, H, I;
    a, b, c, d := a0, b0, c0, d0;
    a := II(a, b, c, d, x[0], 6, 0xf4292244);
    assert Registers(d, a, b, c) == Round(r, x, 3, n + 1);
    d := II(d, a, b, c, x[7], 10, 0x432aff97);
    assert Registers(c, d, a, b) == Round(r, x, 3, n + 2);
    c := II(c, d, a, b, x[14], 15, 0xab9423a7);
    assert Registers(b, c, d, a) == Round(r, x, 3, n + 3);
    b := II(b, c, d, a, x[5], 21, 0xfc93a039);
    assert Registers(a, b, c, d) == Round(r, x, 3, n + 4);
    a := II(a, b, c, d, x[12], 6, 0x655b59c3);
    assert Registers(d, a, b, c) == Round(r, x, 3, n + 5);
    d := II(d, a, b, c, x[3], 10, 0x8f0ccc92);
    assert Registers(c, d, a, b) == Round(r, x, 3, n + 6);
    c := II(c, d, a, b, x[10], 15, 0xffeff47d);
    assert Registers(b, c, d, a) == Round(r, x, 3, n + 7);
    b := II(b, c, d, a, x[1], 21, 0x85845dd1);
    assert Registers(a, b, c, d) == Round(r, x, 3, n + 8);
    a := II(a, b, c, d, x[8], 6, 0x6fa87e4f);
    assert Registers(d, a, b, c) == Round(r, x, 3, n + 9);
    d := II(d, a, b, c, x[15], 10, 0xfe2ce6e0);
    assert Registers(c, d, a, b) == Round(r, x, 3, n + 10);
    c := II(c, d, a, b, x[6], 15, 0xa3014314);
    assert Registers(b, c, d, a) == Round(r, x, 3, n + 11);
    b := II(b, c, d, a, x[13], 21, 0x4e0811a1);
    assert Registers(a, b, c, d) == Round(r, x, 3, n + 12);
    a := II(a, b, c, d, x[4], 6, 0xf7537e82);
    assert Registers(d, a, b, c) == Round(r, x, 3, n + 13);
    d := II(d, a, b, c, x[11], 10, 0xbd3af235);
    assert Registers(c, d, a, b) == Round(r, x, 3, n + 14);
    c := II(c, d, a, b, x[2], 15, 0x2ad7d2bb);
    assert Registers(b, c, d, a) == Round(r, x, 3, n + 15);
    b := II(b, c, d, a, x[9], 21, 0xeb86d391);
    assert Registers(a, b, c, d) == Round(r, x, 3, n + 16);
  }

  method Transform(state: array<u32>, block: seq<byte>)
    requires state.Length == 4 && |block| == 64
    modifies state
    ensures RegistersOf(state) == Compress(old(RegistersOf(state)), block)
  {
    hide Round, Words;
    var x := new u32[16];
    Decode(x, block);
    var a, b, c, d := Round1(state[0], state[1], state[2], state[3], x[..]);
    a, b, c, d := Round2(a, b, c, d, x[..]);
    a, b, c, d := Round3(a, b, c, d, x[..]);
    a, b, c, d := Round4(a, b, c, d, x[..]);
    state[0] := (state[0] + a) % TWO32;
    state[1] := (state[1] + b) % TWO32;
    state[2] := (state[2] + c) % TWO32;
    state[3] := (state[3] + d) % TWO32;
  }
}
