/**
 The first answer of section A.5 of RFC 1321, computed from the definition of the digest: the sixty-four
 operations on the block that the empty string is padded to.
 */
module Md5Answers {
  import opened Bytes
  import opened Words32
  import opened Md5Block
  import opened Md5Octets
  import opened Md5

  /** The digits that leave a word on the left come back on the right. */
  lemma RotateLeftAt(x: u32, n: nat)
    requires n < 32
    ensures RotateLeft(x, n) == x * Pow2(n) % TWO32 + x * Pow2(n) / TWO32
  {
    hide Pow2;
    RotateLeftIs(x, n);
    Powers(n, 32 - n);
    WordSize();
    ScaledQuotient(x, Pow2(n), Pow2(32 - n));
  }

  lemma ScaledQuotient(x: nat, p: nat, q: nat)
    requires p > 0 && q > 0
    ensures p * q > 0 && x * p / (p * q) == x / q
  {
    var high, low := x / q, x % q;
    Quotient(x * p, p * q, high, low * p);
  }

  // ----- One operation after the other -----

  function Four(a: Quad, b: Quad, c: Quad, d: Quad): Registers {
    Registers(Value(a), Value(b), Value(c), Value(d))
  }

  /**
   What an operation of a round makes of these registers and this word: what is mixed, what is rotated, the
   digits that leave it on the left, and what is written; `over` and `wrap` say how often the additions exceed
   a word.
   */
  predicate Gives(round: nat, a: Quad, b: Quad, c: Quad, d: Quad, added: u32, mixed: Quad, over: nat, sum: u32,
                  power: nat, high: u32, wrap: nat, r: Quad)
    requires round < 4
  {
    && mixed == MixedQuad(round, b, c, d)
    && Value(a) + Value(mixed) + added == TWO32 * over + sum
    && 0 <= sum * power - TWO32 * high < TWO32
    && sum * power - TWO32 * high + high + Value(b) == TWO32 * wrap + Value(r)
  }

  /** What the operation writes, without the numbers in between. */
  predicate Leads(round: nat, a: Quad, b: Quad, c: Quad, d: Quad, added: u32, power: nat, r: Quad)
    requires round < 4
  {
    var sum := (Value(a) + Value(MixedQuad(round, b, c, d)) + added) % TWO32;
    Value(r) == (sum * power % TWO32 + sum * power / TWO32 + Value(b)) % TWO32
  }

  lemma Given(round: nat, a: Quad, b: Quad, c: Quad, d: Quad, added: u32, mixed: Quad, over: nat, sum: u32,
              power: nat, high: u32, wrap: nat, r: Quad)
    requires round < 4 && Gives(round, a, b, c, d, added, mixed, over, sum, power, high, wrap, r)
    ensures Leads(round, a, b, c, d, added, power, r)
  {
    hide Value, MixedQuad;
    Quotient(Value(a) + Value(mixed) + added, TWO32, over, sum);
    Quotient(sum * power, TWO32, high, sum * power - TWO32 * high);
    Quotient(sum * power - TWO32 * high + high + Value(b), TWO32, wrap, Value(r));
  }

  lemma Step(start: Registers, x: seq<u32>, round: nat, n: nat, i: nat, a: Quad, b: Quad, c: Quad, d: Quad, added: u32,
             power: nat, r: Quad)
    requires |x| == 16 && round < 4 && n < 16 && i == 16 * round + n
    requires Round(start, x, round, n) == Four(a, b, c, d)
    requires added == (x[WordIndex(i)] + Sine(i)) % TWO32 && power == Pow2(Shift(i))
    requires Leads(round, a, b, c, d, added, power, r)
    ensures Round(start, x, round, n + 1) == Four(d, r, b, c)
  {
    hide Round, Value, MixedQuad, Sine, WordIndex, Shift, Mixed, Mix, Pow2;
    MixedQuadIs(round, n, b, c, d);
    MixIs(Value(a), Value(b), Value(MixedQuad(round, b, c, d)), x[WordIndex(i)], Shift(i), Sine(i));
    NextRegisters(start, x, round, n);
  }

  lemma MixIs(a: u32, b: u32, mixed: u32, word: u32, s: nat, constant: u32)
    requires s < 32
    ensures
      var sum := (a + mixed + (word + constant) % TWO32) % TWO32;
      Mix(a, b, mixed, word, s, constant) == (sum * Pow2(s) % TWO32 + sum * Pow2(s) / TWO32 + b) % TWO32
  {
    hide RotateLeft, Pow2;
    SameSum(a, mixed, word, constant);
    RotateLeftAt((a + mixed + word + constant) % TWO32, s);
  }

  lemma NextRegisters(start: Registers, x: seq<u32>, round: nat, n: nat)
    requires |x| == 16 && round < 4 && n < 16
    ensures
      var i, r := 16 * round + n, Round(start, x, round, n);
      Round(start, x, round, n + 1)
      == Registers(r.d, Mix(r.a, r.b, Mixed(i, r.b, r.c, r.d), x[WordIndex(i)], Shift(i), Sine(i)), r.b, r.c)
  {
    hide Mix, Mixed, Sine, WordIndex, Shift;
  }

  lemma SameSum(a: int, mixed: int, word: int, constant: int)
    ensures (a + mixed + (word + constant) % TWO32) % TWO32 == (a + mixed + word + constant) % TWO32
  {
  }

  // ----- The digest of the empty string -----

  // The registers a, d, c and b at the start, and then what each operation writes.
  const W0: Quad := Quad(0x67, 0x45, 0x23, 0x01)
  const W1: Quad := Quad(0x10, 0x32, 0x54, 0x76)
  const W2: Quad := Quad(0x98, 0xba, 0xdc, 0xfe)
  const W3: Quad := Quad(0xef, 0xcd, 0xab, 0x89)
  const W4: Quad := Quad(0xa5, 0x20, 0x27, 0x74)
  const W5: Quad := Quad(0xf5, 0x95, 0x92, 0xdd)
  const W6: Quad := Quad(0xe7, 0xf0, 0x6b, 0x23)
  const W7: Quad := Quad(0x1b, 0x16, 0x32, 0x03)
  const W8: Quad := Quad(0x32, 0x03, 0x33, 0x44)
  const W9: Quad := Quad(0x2f, 0x35, 0xd4, 0x94)
  const W10: Quad := Quad(0xf5, 0xb1, 0x58, 0xdb)
  const W11: Quad := Quad(0x9b, 0xc1, 0x3c, 0xe9)
  const W12: Quad := Quad(0x38, 0x93, 0xb9, 0x91)
  const W13: Quad := Quad(0xfc, 0xe4, 0xa3, 0x12)
  const W14: Quad := Quad(0xe1, 0xef, 0x05, 0x76)
  const W15: Quad := Quad(0x70, 0x76, 0x8a, 0x29)
  const W16: Quad := Quad(0xf5, 0x6c, 0x7c, 0xf1)
  const W17: Quad := Quad(0x37, 0x49, 0x43, 0xa7)
  const W18: Quad := Quad(0x5a, 0xa5, 0x3f, 0x75)
  const W19: Quad := Quad(0xd6, 0x81, 0x9c, 0x6a)
  const W20: Quad := Quad(0x1c, 0x7d, 0x75, 0x13)
  const W21: Quad := Quad(0x7b, 0xd5, 0x7a, 0x3a)
  const W22: Quad := Quad(0xc0, 0x95, 0xf1, 0x3a)
  const W23: Quad := Quad(0xbd, 0x78, 0x2e, 0x17)
  const W24: Quad := Quad(0x3d, 0x1e, 0x3e, 0x6c)
  const W25: Quad := Quad(0x68, 0xb7, 0xb3, 0xe3)
  const W26: Quad := Quad(0xeb, 0x41, 0x64, 0x3e)
  const W27: Quad := Quad(0xe4, 0x22, 0x53, 0x1a)
  const W28: Quad := Quad(0x30, 0x6e, 0xc1, 0x22)
  const W29: Quad := Quad(0xd2, 0x8c, 0x77, 0xc2)
  const W30: Quad := Quad(0xa3, 0xc6, 0x63, 0xda)
  const W31: Quad := Quad(0xa0, 0x57, 0x28, 0x07)
  const W32: Quad := Quad(0x13, 0x70, 0x70, 0x36)
  const W33: Quad := Quad(0xae, 0x78, 0x13, 0xdb)
  const W34: Quad := Quad(0x1c, 0x31, 0xc3, 0x84)
  const W35: Quad := Quad(0xa2, 0x20, 0x5f, 0x1f)
  const W36: Quad := Quad(0xdf, 0x63, 0xea, 0xa1)
  const W37: Quad := Quad(0xc3, 0x68, 0x9f, 0x5b)
  const W38: Quad := Quad(0x12, 0xf3, 0xe7, 0x55)
  const W39: Quad := Quad(0x00, 0x4b, 0x66, 0x69)
  const W40: Quad := Quad(0x5f, 0x7a, 0x9b, 0x2e)
  const W41: Quad := Quad(0xab, 0xc3, 0x4e, 0x16)
  const W42: Quad := Quad(0x91, 0xca, 0x4c, 0xb7)
  const W43: Quad := Quad(0xc5, 0xdc, 0x8c, 0x15)
  const W44: Quad := Quad(0x44, 0x97, 0x16, 0x9d)
  const W45: Quad := Quad(0x76, 0xfd, 0x93, 0xd4)
  const W46: Quad := Quad(0xfd, 0x95, 0xf2, 0x43)
  const W47: Quad := Quad(0x0f, 0xe3, 0x24, 0x53)
  const W48: Quad := Quad(0x3f, 0x55, 0xed, 0xfd)
  const W49: Quad := Quad(0x22, 0xa3, 0x1f, 0x54)
  const W50: Quad := Quad(0x68, 0xd8, 0x4e, 0xa2)
  const W51: Quad := Quad(0xca, 0x7d, 0x2d, 0xbd)
  const W52: Quad := Quad(0x93, 0xaa, 0x25, 0x77)
  const W53: Quad := Quad(0x16, 0x88, 0xdc, 0x85)
  const W54: Quad := Quad(0xcd, 0x85, 0xb8, 0xcb)
  const W55: Quad := Quad(0x56, 0x1e, 0x06, 0x89)
  const W56: Quad := Quad(0x56, 0x25, 0xa1, 0x14)
  const W57: Quad := Quad(0x34, 0x50, 0xf4, 0x2b)
  const W58: Quad := Quad(0x39, 0x2a, 0xd0, 0xd0)
  const W59: Quad := Quad(0x1e, 0x77, 0xfa, 0x61)
  const W60: Quad := Quad(0x47, 0x4a, 0x9c, 0x8c)
  const W61: Quad := Quad(0xdf, 0xce, 0x00, 0xbc)
  const W62: Quad := Quad(0x36, 0x59, 0x4b, 0x14)
  const W63: Quad := Quad(0x30, 0x13, 0x01, 0x82)
  const W64: Quad := Quad(0x72, 0x46, 0xfa, 0xd3)
  const W65: Quad := Quad(0x6e, 0x10, 0xa4, 0x76)
  const W66: Quad := Quad(0xff, 0x4e, 0xa3, 0xeb)
  const W67: Quad := Quad(0x14, 0xe4, 0x55, 0x06)

  /** The words of the block that the empty string is padded to. */
  predicate IsPadding(x: seq<u32>) {
    |x| == 16 && forall j :: 0 <= j < 16 ==> x[j] == if j == 0 then 0x80 else 0
  }

  lemma Operations0()
    ensures Leads(0, W0, W3, W2, W1, 0xd76aa4f8, 0x80, W4)
    ensures Leads(0, W1, W4, W3, W2, 0xe8c7b756, 0x1000, W5)
    ensures Leads(0, W2, W5, W4, W3, 0x242070db, 0x20000, W6)
    ensures Leads(0, W3, W6, W5, W4, 0xc1bdceee, 0x400000, W7)
  {
    hide Leads;
    Given(0, W0, W3, W2, W1, 0xd76aa4f8, Quad(0x98, 0xba, 0xdc, 0xfe), 1, 0xd76aa4f7, 0x80, 0x6b, 1, W4);
    Given(0, W1, W4, W3, W2, 0xe8c7b756, Quad(0xbd, 0x9a, 0xfb, 0x8a), 1, 0xb6950756, 0x1000, 0xb69, 0, W5);
    Given(0, W2, W5, W4, W3, 0x242070db, Quad(0xaf, 0x48, 0x2b, 0x54), 1, 0x6c23792d, 0x20000, 0xd846, 1, W6);
    Given(0, W3, W6, W5, W4, 0xc1bdceee, Quad(0xe5, 0x90, 0x06, 0x55), 2, 0x971b80cc, 0x400000, 0x25c6e0, 1, W7);
  }

  lemma Operations4()
    ensures Leads(0, W4, W7, W6, W5, 0xf57c0faf, 0x80, W8)
    ensures Leads(0, W5, W8, W7, W6, 0x4787c62a, 0x1000, W9)
    ensures Leads(0, W6, W9, W8, W7, 0xa8304613, 0x20000, W10)
    ensures Leads(0, W7, W10, W9, W8, 0xfd469501, 0x400000, W11)
  {
    hide Leads;
    Given(0, W4, W7, W6, W5, 0xf57c0faf, Quad(0xe7, 0x91, 0xa2, 0xdf), 2, 0x822dda02, 0x80, 0x41, 0, W8);
    Given(0, W5, W8, W7, W6, 0x4787c62a, Quad(0xd7, 0xf2, 0x7a, 0x23), 2, 0x150fd32a, 0x1000, 0x150, 1, W9);
    Given(0, W6, W9, W8, W7, 0xa8304613, Quad(0x32, 0x03, 0x32, 0x07), 1, 0xc223e33d, 0x20000, 0x18447, 0, W10);
    Given(0, W7, W10, W9, W8, 0xfd469501, Quad(0x27, 0x33, 0x73, 0x94), 1, 0x3f903a98, 0x400000, 0xfe40e, 1, W11);
  }

  lemma Added0(x: seq<u32>)
    requires IsPadding(x)
    ensures (x[WordIndex(0)] + Sine(0)) % TWO32 == 0xd76aa4f8
    ensures (x[WordIndex(1)] + Sine(1)) % TWO32 == 0xe8c7b756
    ensures (x[WordIndex(2)] + Sine(2)) % TWO32 == 0x242070db
    ensures (x[WordIndex(3)] + Sine(3)) % TWO32 == 0xc1bdceee
    ensures (x[WordIndex(4)] + Sine(4)) % TWO32 == 0xf57c0faf
    ensures (x[WordIndex(5)] + Sine(5)) % TWO32 == 0x4787c62a
    ensures (x[WordIndex(6)] + Sine(6)) % TWO32 == 0xa8304613
    ensures (x[WordIndex(7)] + Sine(7)) % TWO32 == 0xfd469501
  {
  }

  lemma Registers0(start: Registers, x: seq<u32>, round: nat, n: nat)
    requires IsPadding(x) && round == 0 && n == 0 && Round(start, x, round, n) == Four(W0, W3, W2, W1)
    ensures Round(start, x, round, n + 8) == Four(W8, W11, W10, W9)
  {
    hide Round, Pow2, Leads, Four, Sine, WordIndex;
    ShiftPowers();
    Added0(x);
    Operations0();
    Operations4();
    Step(start, x, round, n + 0, 0, W0, W3, W2, W1, 0xd76aa4f8, 0x80, W4);
    Step(start, x, round, n + 1, 1, W1, W4, W3, W2, 0xe8c7b756, 0x1000, W5);
    Step(start, x, round, n + 2, 2, W2, W5, W4, W3, 0x242070db, 0x20000, W6);
    Step(start, x, round, n + 3, 3, W3, W6, W5, W4, 0xc1bdceee, 0x400000, W7);
    Step(start, x, round, n + 4, 4, W4, W7, W6, W5, 0xf57c0faf, 0x80, W8);
    Step(start, x, round, n + 5, 5, W5, W8, W7, W6, 0x4787c62a, 0x1000, W9);
    Step(start, x, round, n + 6, 6, W6, W9, W8, W7, 0xa8304613, 0x20000, W10);
    Step(start, x, round, n + 7, 7, W7, W10, W9, W8, 0xfd469501, 0x400000, W11);
  }

  lemma Operations8()
    ensures Leads(0, W8, W11, W10, W9, 0x698098d8, 0x80, W12)
    ensures Leads(0, W9, W12, W11, W10, 0x8b44f7af, 0x1000, W13)
    ensures Leads(0, W10, W13, W12, W11, 0xffff5bb1, 0x20000, W14)
    ensures Leads(0, W11, W14, W13, W12, 0x895cd7be, 0x400000, W15)
  {
    hide Leads;
    Given(0, W8, W11, W10, W9, 0x698098d8, Quad(0xb5, 0xb5, 0xd8, 0xdd), 1, 0x5139a4f9, 0x80, 0x28, 1, W12);
    Given(0, W9, W12, W11, W10, 0x8b44f7af, Quad(0xdd, 0xa1, 0x78, 0xcb), 1, 0x981c450e, 0x1000, 0x981, 0, W13);
    Given(0, W10, W13, W12, W11, 0xffff5bb1, Quad(0x3b, 0x81, 0xbd, 0xf9), 2, 0x31327285, 0x20000, 0x6264, 1, W14);
    Given(0, W11, W14, W13, W12, 0x895cd7be, Quad(0xf8, 0xf4, 0xb9, 0x93), 2, 0x1e12ce3a, 0x400000, 0x784b3, 1, W15);
  }

  lemma Operations12()
    ensures Leads(0, W12, W15, W14, W13, 0x6b901122, 0x80, W16)
    ensures Leads(0, W13, W16, W15, W14, 0xfd987193, 0x1000, W17)
    ensures Leads(0, W14, W17, W16, W15, 0xa679438e, 0x20000, W18)
    ensures Leads(0, W15, W18, W17, W16, 0x49b40821, 0x400000, W19)
  {
    hide Leads;
    Given(0, W12, W15, W14, W13, 0x6b901122, Quad(0xec, 0xe6, 0x21, 0x32), 1, 0x9109ebe5, 0x80, 0x48, 0, W16);
    Given(0, W13, W16, W15, W14, 0xfd987193, Quad(0x70, 0xe7, 0x09, 0x27), 2, 0x6b641dcc, 0x1000, 0x6b6, 1, W17);
    Given(0, W14, W17, W16, W15, 0xa679438e, Quad(0x75, 0x7e, 0xc8, 0xa9), 1, 0xfde711ad, 0x20000, 0x1fbce, 0, W18);
    Given(0, W15, W18, W17, W16, 0x49b40821, Quad(0xb7, 0x49, 0x43, 0xa5), 1, 0x7173d5ef, 0x400000, 0x1c5cf5, 0, W19);
  }

  lemma Added8(x: seq<u32>)
    requires IsPadding(x)
    ensures (x[WordIndex(8)] + Sine(8)) % TWO32 == 0x698098d8
    ensures (x[WordIndex(9)] + Sine(9)) % TWO32 == 0x8b44f7af
    ensures (x[WordIndex(10)] + Sine(10)) % TWO32 == 0xffff5bb1
    ensures (x[WordIndex(11)] + Sine(11)) % TWO32 == 0x895cd7be
    ensures (x[WordIndex(12)] + Sine(12)) % TWO32 == 0x6b901122
    ensures (x[WordIndex(13)] + Sine(13)) % TWO32 == 0xfd987193
    ensures (x[WordIndex(14)] + Sine(14)) % TWO32 == 0xa679438e
    ensures (x[WordIndex(15)] + Sine(15)) % TWO32 == 0x49b40821
  {
  }

  lemma Registers8(start: Registers, x: seq<u32>, round: nat, n: nat)
    requires IsPadding(x) && round == 0 && n == 8 && Round(start, x, round, n) == Four(W8, W11, W10, W9)
    ensures Round(start, x, round, n + 8) == Four(W16, W19, W18, W17)
  {
    hide Round, Pow2, Leads, Four, Sine, WordIndex;
    ShiftPowers();
    Added8(x);
    Operations8();
    Operations12();
    Step(start, x, round, n + 0, 8, W8, W11, W10, W9, 0x698098d8, 0x80, W12);
    Step(start, x, round, n + 1, 9, W9, W12, W11, W10, 0x8b44f7af, 0x1000, W13);
    Step(start, x, round, n + 2, 10, W10, W13, W12, W11, 0xffff5bb1, 0x20000, W14);
    Step(start, x, round, n + 3, 11, W11, W14, W13, W12, 0x895cd7be, 0x400000, W15);
    Step(start, x, round, n + 4, 12, W12, W15, W14, W13, 0x6b901122, 0x80, W16);
    Step(start, x, round, n + 5, 13, W13, W16, W15, W14, 0xfd987193, 0x1000, W17);
    Step(start, x, round, n + 6, 14, W14, W17, W16, W15, 0xa679438e, 0x20000, W18);
    Step(start, x, round, n + 7, 15, W15, W18, W17, W16, 0x49b40821, 0x400000, W19);
  }

  lemma Operations16()
    ensures Leads(1, W16, W19, W18, W17, 0xf61e2562, 0x20, W20)
    ensures Leads(1, W17, W20, W19, W18, 0xc040b340, 0x200, W21)
    ensures Leads(1, W18, W21, W20, W19, 0x265e5a51, 0x4000, W22)
    ensures Leads(1, W19, W22, W21, W20, 0xe9b6c82a, 0x100000, W23)
  {
    hide Leads;
    Given(1, W16, W19, W18, W17, 0xf61e2562, Quad(0x5e, 0xa5, 0x3c, 0x72), 2, 0x4a2fdec5, 0x20, 0x9, 1, W20);
    Given(1, W17, W20, W19, W18, 0xc040b340, Quad(0x9c, 0x25, 0xb5, 0x1b), 1, 0x93afac02, 0x200, 0x127, 0, W21);
    Given(1, W18, W21, W20, W19, 0x265e5a51, Quad(0x5a, 0xfd, 0x79, 0x3b), 0, 0xdc011301, 0x4000, 0x3700, 0, W22);
    Given(1, W19, W22, W21, W20, 0xe9b6c82a, Quad(0x63, 0x95, 0x7b, 0x3a), 2, 0x23cddfce, 0x100000, 0x23cdd, 1, W23);
  }

  lemma Operations20()
    ensures Leads(1, W20, W23, W22, W21, 0xd62f105d, 0x20, W24)
    ensures Leads(1, W21, W24, W23, W22, 0x2441453, 0x200, W25)
    ensures Leads(1, W22, W25, W24, W23, 0xd8a1e681, 0x4000, W26)
    ensures Leads(1, W23, W26, W25, W24, 0xe7d3fbc8, 0x100000, W27)
  {
    hide Leads;
    Given(1, W20, W23, W22, W21, 0xd62f105d, Quad(0xb9, 0x50, 0xab, 0x12), 1, 0xabfd3082, 0x20, 0x15, 1, W24);
    Given(1, W21, W24, W23, W22, 0x2441453, Quad(0x3d, 0x7c, 0x3e, 0x2d), 0, 0xbb95ccba, 0x200, 0x177, 0, W25);
    Given(1, W22, W25, W24, W23, 0xd8a1e681, Quad(0x28, 0x36, 0x32, 0x6b), 1, 0xc16e0a26, 0x4000, 0x305b, 0, W26);
    Given(1, W23, W26, W25, W24, 0xe7d3fbc8, Quad(0x69, 0xa1, 0xa5, 0xaf), 2, 0xeedcf8e, 0x100000, 0xeedc, 1, W27);
  }

  lemma Added16(x: seq<u32>)
    requires IsPadding(x)
    ensures (x[WordIndex(16)] + Sine(16)) % TWO32 == 0xf61e2562
    ensures (x[WordIndex(17)] + Sine(17)) % TWO32 == 0xc040b340
    ensures (x[WordIndex(18)] + Sine(18)) % TWO32 == 0x265e5a51
    ensures (x[WordIndex(19)] + Sine(19)) % TWO32 == 0xe9b6c82a
    ensures (x[WordIndex(20)] + Sine(20)) % TWO32 == 0xd62f105d
    ensures (x[WordIndex(21)] + Sine(21)) % TWO32 == 0x2441453
    ensures (x[WordIndex(22)] + Sine(22)) % TWO32 == 0xd8a1e681
    ensures (x[WordIndex(23)] + Sine(23)) % TWO32 == 0xe7d3fbc8
  {
  }

  lemma Registers16(start: Registers, x: seq<u32>, round: nat, n: nat)
    requires IsPadding(x) && round == 1 && n == 0 && Round(start, x, round, n) == Four(W16, W19, W18, W17)
    ensures Round(start, x, round, n + 8) == Four(W24, W27, W26, W25)
  {
    hide Round, Pow2, Leads, Four, Sine, WordIndex;
    ShiftPowers();
    Added16(x);
    Operations16();
    Operations20();
    Step(start, x, round, n + 0, 16, W16, W19, W18, W17, 0xf61e2562, 0x20, W20);
    Step(start, x, round, n + 1, 17, W17, W20, W19, W18, 0xc040b340, 0x200, W21);
    Step(start, x, round, n + 2, 18, W18, W21, W20, W19, 0x265e5a51, 0x4000, W22);
    Step(start, x, round, n + 3, 19, W19, W22, W21, W20, 0xe9b6c82a, 0x100000, W23);
    Step(start, x, round, n + 4, 20, W20, W23, W22, W21, 0xd62f105d, 0x20, W24);
    Step(start, x, round, n + 5, 21, W21, W24, W23, W22, 0x2441453, 0x200, W25);
    Step(start, x, round, n + 6, 22, W22, W25, W24, W23, 0xd8a1e681, 0x4000, W26);
    Step(start, x, round, n + 7, 23, W23, W26, W25, W24, 0xe7d3fbc8, 0x100000, W27);
  }

  lemma Operations24()
    ensures Leads(1, W24, W27, W26, W25, 0x21e1cde6, 0x20, W28)
    ensures Leads(1, W25, W28, W27, W26, 0xc33707d6, 0x200, W29)
    ensures Leads(1, W26, W29, W28, W27, 0xf4d50d87, 0x4000, W30)
    ensures Leads(1, W27, W30, W29, W28, 0x455a14ed, 0x100000, W31)
  {
    hide Leads;
    Given(1, W24, W27, W26, W25, 0x21e1cde6, Quad(0xe3, 0x62, 0x57, 0x1e), 1, 0x42626370, 0x20, 0x8, 1, W28);
    Given(1, W25, W28, W27, W26, 0xc33707d6, Quad(0x24, 0x62, 0x53, 0x22), 1, 0x50510edb, 0x200, 0xa0, 0, W29);
    Given(1, W26, W29, W28, W27, 0xf4d50d87, Quad(0xd0, 0x4c, 0xd3, 0x22), 2, 0xb06344e7, 0x4000, 0x2c18, 1, W30);
    Given(1, W27, W30, W29, W28, 0x455a14ed, Quad(0xe2, 0xc6, 0x77, 0xc2), 2, 0xc42dfc9, 0x100000, 0xc42d, 1, W31);
  }

  lemma Operations28()
    ensures Leads(1, W28, W31, W30, W29, 0xa9e3e905, 0x20, W32)
    ensures Leads(1, W29, W32, W31, W30, 0xfcefa3f8, 0x200, W33)
    ensures Leads(1, W30, W33, W32, W31, 0x676f02d9, 0x4000, W34)
    ensures Leads(1, W31, W34, W33, W32, 0x8d2a4c8a, 0x100000, W35)
  {
    hide Leads;
    Given(1, W28, W31, W30, W29, 0xa9e3e905, Quad(0xa1, 0x46, 0x20, 0x1a), 1, 0x7b98ca41, 0x20, 0xf, 1, W32);
    Given(1, W29, W32, W31, W30, 0xfcefa3f8, Quad(0x03, 0x51, 0x68, 0x17), 1, 0xd2cd83d1, 0x200, 0x1a5, 0, W33);
    Given(1, W30, W33, W32, W31, 0x676f02d9, Quad(0xb3, 0x70, 0x50, 0x33), 1, 0xbea5b6e6, 0x4000, 0x2fa9, 1, W34);
    Given(1, W31, W34, W33, W32, 0x8d2a4c8a, Quad(0xbc, 0x38, 0x43, 0xcd), 1, 0xe9b9b85e, 0x100000, 0xe9b9b, 0, W35);
  }

  lemma Added24(x: seq<u32>)
    requires IsPadding(x)
    ensures (x[WordIndex(24)] + Sine(24)) % TWO32 == 0x21e1cde6
    ensures (x[WordIndex(25)] + Sine(25)) % TWO32 == 0xc33707d6
    ensures (x[WordIndex(26)] + Sine(26)) % TWO32 == 0xf4d50d87
    ensures (x[WordIndex(27)] + Sine(27)) % TWO32 == 0x455a14ed
    ensures (x[WordIndex(28)] + Sine(28)) % TWO32 == 0xa9e3e905
    ensures (x[WordIndex(29)] + Sine(29)) % TWO32 == 0xfcefa3f8
    ensures (x[WordIndex(30)] + Sine(30)) % TWO32 == 0x676f02d9
    ensures (x[WordIndex(31)] + Sine(31)) % TWO32 == 0x8d2a4c8a
  {
  }

  lemma Registers24(start: Registers, x: seq<u32>, round: nat, n: nat)
    requires IsPadding(x) && round == 1 && n == 8 && Round(start, x, round, n) == Four(W24, W27, W26, W25)
    ensures Round(start, x, round, n + 8) == Four(W32, W35, W34, W33)
  {
    hide Round, Pow2, Leads, Four, Sine, WordIndex;
    ShiftPowers();
    Added24(x);
    Operations24();
    Operations28();
    Step(start, x, round, n + 0, 24, W24, W27, W26, W25, 0x21e1cde6, 0x20, W28);
    Step(start, x, round, n + 1, 25, W25, W28, W27, W26, 0xc33707d6, 0x200, W29);
    Step(start, x, round, n + 2, 26, W26, W29, W28, W27, 0xf4d50d87, 0x4000, W30);
    Step(start, x, round, n + 3, 27, W27, W30, W29, W28, 0x455a14ed, 0x100000, W31);
    Step(start, x, round, n + 4, 28, W28, W31, W30, W29, 0xa9e3e905, 0x20, W32);
    Step(start, x, round, n + 5, 29, W29, W32, W31, W30, 0xfcefa3f8, 0x200, W33);
    Step(start, x, round, n + 6, 30, W30, W33, W32, W31, 0x676f02d9, 0x4000, W34);
    Step(start, x, round, n + 7, 31, W31, W34, W33, W32, 0x8d2a4c8a, 0x100000, W35);
  }

  lemma Operations32()
    ensures Leads(2, W32, W35, W34, W33, 0xfffa3942, 0x10, W36)
    ensures Leads(2, W33, W36, W35, W34, 0x8771f681, 0x800, W37)
    ensures Leads(2, W34, W37, W36, W35, 0x6d9d6122, 0x10000, W38)
    ensures Leads(2, W35, W38, W37, W36, 0xfde5380c, 0x800000, W39)
  {
    hide Leads;
    Given(2, W32, W35, W34, W33, 0xfffa3942, Quad(0x10, 0x69, 0x8f, 0x40), 1, 0x23d438b8, 0x10, 0x2, 0, W36);
    Given(2, W33, W36, W35, W34, 0x8771f681, Quad(0x61, 0x72, 0x76, 0x3a), 1, 0x975c8096, 0x800, 0x4ba, 1, W37);
    Given(2, W34, W37, W36, W35, 0x6d9d6122, Quad(0xbe, 0x2b, 0x2a, 0xe5), 1, 0x47fa4f8b, 0x10000, 0x47fa, 1, W38);
    Given(2, W35, W38, W37, W36, 0xfde5380c, Quad(0x0e, 0xf8, 0x92, 0xaf), 1, 0xaefe29da, 0x800000, 0x577f14, 1, W39);
  }

  lemma Operations36()
    ensures Leads(2, W36, W39, W38, W37, 0xa4beea44, 0x10, W40)
    ensures Leads(2, W37, W40, W39, W38, 0x4bdecfa9, 0x800, W41)
    ensures Leads(2, W38, W41, W40, W39, 0xf6bb4b60, 0x10000, W42)
    ensures Leads(2, W39, W42, W41, W40, 0xbebfbc70, 0x800000, W43)
  {
    hide Leads;
    Given(2, W36, W39, W38, W37, 0xa4beea44, Quad(0xd1, 0xd0, 0x1e, 0x67), 2, 0x55f2f34c, 0x10, 0x5, 0, W40);
    Given(2, W37, W40, W39, W38, 0x4bdecfa9, Quad(0x4d, 0xc2, 0x1a, 0x12), 1, 0x5d098916, 0x800, 0x2e8, 0, W41);
    Given(2, W38, W41, W40, W39, 0xf6bb4b60, Quad(0xf4, 0xf2, 0xb3, 0x51), 1, 0xfea1e606, 0x10000, 0xfea1, 1, W42);
    Given(2, W39, W42, W41, W40, 0xbebfbc70, Quad(0x65, 0x73, 0x99, 0x8f), 1, 0x247ebc68, 0x800000, 0x123f5e, 0, W43);
  }

  lemma Added32(x: seq<u32>)
    requires IsPadding(x)
    ensures (x[WordIndex(32)] + Sine(32)) % TWO32 == 0xfffa3942
    ensures (x[WordIndex(33)] + Sine(33)) % TWO32 == 0x8771f681
    ensures (x[WordIndex(34)] + Sine(34)) % TWO32 == 0x6d9d6122
    ensures (x[WordIndex(35)] + Sine(35)) % TWO32 == 0xfde5380c
    ensures (x[WordIndex(36)] + Sine(36)) % TWO32 == 0xa4beea44
    ensures (x[WordIndex(37)] + Sine(37)) % TWO32 == 0x4bdecfa9
    ensures (x[WordIndex(38)] + Sine(38)) % TWO32 == 0xf6bb4b60
    ensures (x[WordIndex(39)] + Sine(39)) % TWO32 == 0xbebfbc70
  {
  }

  lemma Registers32(start: Registers, x: seq<u32>, round: nat, n: nat)
    requires IsPadding(x) && round == 2 && n == 0 && Round(start, x, round, n) == Four(W32, W35, W34, W33)
    ensures Round(start, x, round, n + 8) == Four(W40, W43, W42, W41)
  {
    hide Round, Pow2, Leads, Four, Sine, WordIndex;
    ShiftPowers();
    Added32(x);
    Operations32();
    Operations36();
    Step(start, x, round, n + 0, 32, W32, W35, W34, W33, 0xfffa3942, 0x10, W36);
    Step(start, x, round, n + 1, 33, W33, W36, W35, W34, 0x8771f681, 0x800, W37);
    Step(start, x, round, n + 2, 34, W34, W37, W36, W35, 0x6d9d6122, 0x10000, W38);
    Step(start, x, round, n + 3, 35, W35, W38, W37, W36, 0xfde5380c, 0x800000, W39);
    Step(start, x, round, n + 4, 36, W36, W39, W38, W37, 0xa4beea44, 0x10, W40);
    Step(start, x, round, n + 5, 37, W37, W40, W39, W38, 0x4bdecfa9, 0x800, W41);
    Step(start, x, round, n + 6, 38, W38, W41, W40, W39, 0xf6bb4b60, 0x10000, W42);
    Step(start, x, round, n + 7, 39, W39, W42, W41, W40, 0xbebfbc70, 0x800000, W43);
  }

  lemma Operations40()
    ensures Leads(2, W40, W43, W42, W41, 0x289b7ec6, 0x10, W44)
    ensures Leads(2, W41, W44, W43, W42, 0xeaa1287a, 0x800, W45)
    ensures Leads(2, W42, W45, W44, W43, 0xd4ef3085, 0x10000, W46)
    ensures Leads(2, W43, W46, W45, W44, 0x4881d05, 0x800000, W47)
  {
    hide Leads;
    Given(2, W40, W43, W42, W41, 0x289b7ec6, Quad(0xff, 0xd5, 0x8e, 0xb4), 1, 0x87eba8a8, 0x10, 0x8, 1, W44);
    Given(2, W41, W44, W43, W42, 0xeaa1287a, Quad(0x10, 0x81, 0xd6, 0x3f), 1, 0xa6e64ccf, 0x800, 0x537, 0, W45);
    Given(2, W42, W45, W44, W43, 0xd4ef3085, Quad(0xf7, 0xb6, 0x09, 0x5c), 2, 0x5e6f8698, 0x10000, 0x5e6f, 0, W46);
    Given(2, W43, W46, W45, W44, 0x4881d05, Quad(0xcf, 0xff, 0x77, 0x0a), 1, 0x9a642024, 0x800000, 0x4d3210, 1, W47);
  }

  lemma Operations44()
    ensures Leads(2, W44, W47, W46, W45, 0xd9d4d039, 0x10, W48)
    ensures Leads(2, W45, W48, W47, W46, 0xe6db99e5, 0x800, W49)
    ensures Leads(2, W46, W49, W48, W47, 0x1fa27cf8, 0x10000, W50)
    ensures Leads(2, W47, W50, W49, W48, 0xc4ac5665, 0x800000, W51)
  {
    hide Leads;
    Given(2, W44, W47, W46, W45, 0xd9d4d039, Quad(0x84, 0x8b, 0x45, 0xc4), 1, 0xa2f72c9a, 0x10, 0xa, 0, W48);
    Given(2, W45, W48, W47, W46, 0xe6db99e5, Quad(0xcd, 0x23, 0x3b, 0xed), 2, 0x2afc69a6, 0x800, 0x157, 1, W49);
    Given(2, W46, W49, W48, W47, 0x1fa27cf8, Quad(0x12, 0x15, 0xd6, 0xfa), 1, 0x2f4e4635, 0x10000, 0x2f4e, 0, W50);
    Given(2, W47, W50, W49, W48, 0xc4ac5665, Quad(0x75, 0x2e, 0xbc, 0x0b), 1, 0x49be36c3, 0x800000, 0x24df1b, 0, W51);
  }

  lemma Added40(x: seq<u32>)
    requires IsPadding(x)
    ensures (x[WordIndex(40)] + Sine(40)) % TWO32 == 0x289b7ec6
    ensures (x[WordIndex(41)] + Sine(41)) % TWO32 == 0xeaa1287a
    ensures (x[WordIndex(42)] + Sine(42)) % TWO32 == 0xd4ef3085
    ensures (x[WordIndex(43)] + Sine(43)) % TWO32 == 0x4881d05
    ensures (x[WordIndex(44)] + Sine(44)) % TWO32 == 0xd9d4d039
    ensures (x[WordIndex(45)] + Sine(45)) % TWO32 == 0xe6db99e5
    ensures (x[WordIndex(46)] + Sine(46)) % TWO32 == 0x1fa27cf8
    ensures (x[WordIndex(47)] + Sine(47)) % TWO32 == 0xc4ac5665
  {
  }

  lemma Registers40(start: Registers, x: seq<u32>, round: nat, n: nat)
    requires IsPadding(x) && round == 2 && n == 8 && Round(start, x, round, n) == Four(W40, W43, W42, W41)
    ensures Round(start, x, round, n + 8) == Four(W48, W51, W50, W49)
  {
    hide Round, Pow2, Leads, Four, Sine, WordIndex;
    ShiftPowers();
    Added40(x);
    Operations40();
    Operations44();
    Step(start, x, round, n + 0, 40, W40, W43, W42, W41, 0x289b7ec6, 0x10, W44);
    Step(start, x, round, n + 1, 41, W41, W44, W43, W42, 0xeaa1287a, 0x800, W45);
    Step(start, x, round, n + 2, 42, W42, W45, W44, W43, 0xd4ef3085, 0x10000, W46);
    Step(start, x, round, n + 3, 43, W43, W46, W45, W44, 0x4881d05, 0x800000, W47);
    Step(start, x, round, n + 4, 44, W44, W47, W46, W45, 0xd9d4d039, 0x10, W48);
    Step(start, x, round, n + 5, 45, W45, W48, W47, W46, 0xe6db99e5, 0x800, W49);
    Step(start, x, round, n + 6, 46, W46, W49, W48, W47, 0x1fa27cf8, 0x10000, W50);
    Step(start, x, round, n + 7, 47, W47, W50, W49, W48, 0xc4ac5665, 0x800000, W51);
  }

  lemma Operations48()
    ensures Leads(3, W48, W51, W50, W49, 0xf42922c4, 0x40, W52)
    ensures Leads(3, W49, W52, W51, W50, 0x432aff97, 0x400, W53)
    ensures Leads(3, W50, W53, W52, W51, 0xab9423a7, 0x8000, W54)
    ensures Leads(3, W51, W54, W53, W52, 0xfc93a039, 0x200000, W55)
  {
    hide Leads;
    Given(3, W48, W51, W50, W49, 0xf42922c4, Quad(0xb7, 0xa5, 0xa3, 0x1d), 1, 0xeb24b3de, 0x40, 0x3a, 1, W52);
    Given(3, W49, W52, W51, W50, 0x432aff97, Quad(0x5d, 0xd2, 0x98, 0xc2), 0, 0xc3a0b7ad, 0x400, 0x30e, 1, W53);
    Given(3, W50, W53, W52, W51, 0xab9423a7, Quad(0xa4, 0x20, 0xfb, 0xb0), 1, 0xb88d6df9, 0x8000, 0x5c46, 0, W54);
    Given(3, W51, W54, W53, W52, 0xfc93a039, Quad(0xfb, 0x5d, 0x26, 0x4e), 2, 0xc26df444, 0x200000, 0x184dbe, 1, W55);
  }

  lemma Operations52()
    ensures Leads(3, W52, W55, W54, W53, 0x655b59c3, 0x40, W56)
    ensures Leads(3, W53, W56, W55, W54, 0x8f0ccc92, 0x400, W57)
    ensures Leads(3, W54, W57, W56, W55, 0xffeff47d, 0x8000, W58)
    ensures Leads(3, W55, W58, W57, W56, 0x85845dd1, 0x200000, W59)
  {
    hide Leads;
    Given(3, W52, W55, W54, W53, 0x655b59c3, Quad(0x32, 0xfa, 0x9f, 0x30), 1, 0x2c001e6a, 0x40, 0xb, 0, W56);
    Given(3, W53, W56, W55, W54, 0x8f0ccc92, Quad(0x20, 0x61, 0xe1, 0xbd), 0, 0xc5f78ad4, 0x400, 0x317, 1, W57);
    Given(3, W54, W57, W56, W55, 0xffeff47d, Quad(0xeb, 0xd4, 0x5c, 0x6b), 2, 0xb94a09b3, 0x8000, 0x5ca5, 0, W58);
    Given(3, W55, W58, W57, W56, 0x85845dd1, Quad(0x8d, 0xaa, 0x2a, 0xd0), 1, 0x694c8f2a, 0x200000, 0xd2991, 1, W59);
  }

  lemma Added48(x: seq<u32>)
    requires IsPadding(x)
    ensures (x[WordIndex(48)] + Sine(48)) % TWO32 == 0xf42922c4
    ensures (x[WordIndex(49)] + Sine(49)) % TWO32 == 0x432aff97
    ensures (x[WordIndex(50)] + Sine(50)) % TWO32 == 0xab9423a7
    ensures (x[WordIndex(51)] + Sine(51)) % TWO32 == 0xfc93a039
    ensures (x[WordIndex(52)] + Sine(52)) % TWO32 == 0x655b59c3
    ensures (x[WordIndex(53)] + Sine(53)) % TWO32 == 0x8f0ccc92
    ensures (x[WordIndex(54)] + Sine(54)) % TWO32 == 0xffeff47d
    ensures (x[WordIndex(55)] + Sine(55)) % TWO32 == 0x85845dd1
  {
  }

  lemma Registers48(start: Registers, x: seq<u32>, round: nat, n: nat)
    requires IsPadding(x) && round == 3 && n == 0 && Round(start, x, round, n) == Four(W48, W51, W50, W49)
    ensures Round(start, x, round, n + 8) == Four(W56, W59, W58, W57)
  {
    hide Round, Pow2, Leads, Four, Sine, WordIndex;
    ShiftPowers();
    Added48(x);
    Operations48();
    Operations52();
    Step(start, x, round, n + 0, 48, W48, W51, W50, W49, 0xf42922c4, 0x40, W52);
    Step(start, x, round, n + 1, 49, W49, W52, W51, W50, 0x432aff97, 0x400, W53);
    Step(start, x, round, n + 2, 50, W50, W53, W52, W51, 0xab9423a7, 0x8000, W54);
    Step(start, x, round, n + 3, 51, W51, W54, W53, W52, 0xfc93a039, 0x200000, W55);
    Step(start, x, round, n + 4, 52, W52, W55, W54, W53, 0x655b59c3, 0x40, W56);
    Step(start, x, round, n + 5, 53, W53, W56, W55, W54, 0x8f0ccc92, 0x400, W57);
    Step(start, x, round, n + 6, 54, W54, W57, W56, W55, 0xffeff47d, 0x8000, W58);
    Step(start, x, round, n + 7, 55, W55, W58, W57, W56, 0x85845dd1, 0x200000, W59);
  }

  lemma Operations56()
    ensures Leads(3, W56, W59, W58, W57, 0x6fa87e4f, 0x40, W60)
    ensures Leads(3, W57, W60, W59, W58, 0xfe2ce6e0, 0x400, W61)
    ensures Leads(3, W58, W61, W60, W59, 0xa3014314, 0x8000, W62)
    ensures Leads(3, W59, W62, W61, W60, 0x4e0811a1, 0x200000, W63)
  {
    hide Leads;
    Given(3, W56, W59, W58, W57, 0x6fa87e4f, Quad(0xe6, 0xd5, 0x2b, 0x25), 1, 0xaca34a88, 0x40, 0x2b, 0, W60);
    Given(3, W57, W60, W59, W58, 0xfe2ce6e0, Quad(0xd9, 0xa8, 0x45, 0xce), 2, 0xc2620d9, 0x400, 0x30, 0, W61);
    Given(3, W58, W61, W60, W59, 0xa3014314, Quad(0xb8, 0x84, 0x99, 0x32), 1, 0x94b0ad16, 0x8000, 0x4a58, 1, W62);
    Given(3, W59, W62, W61, W60, 0x4e0811a1, Quad(0x61, 0x33, 0x6b, 0xcb), 0, 0xcdb377cd, 0x200000, 0x19b66e, 1, W63);
  }

  lemma Operations60()
    ensures Leads(3, W60, W63, W62, W61, 0xf7537e82, 0x40, W64)
    ensures Leads(3, W61, W64, W63, W62, 0xbd3af235, 0x400, W65)
    ensures Leads(3, W62, W65, W64, W63, 0x2ad7d2bb, 0x8000, W66)
    ensures Leads(3, W63, W66, W65, W64, 0xeb86d391, 0x200000, W67)
  {
    hide Leads;
    Given(3, W60, W63, W62, W61, 0xf7537e82, Quad(0x06, 0x6a, 0xb4, 0xd7), 1, 0x4508cfe5, 0x40, 0x11, 0, W64);
    Given(3, W61, W64, W63, W62, 0xbd3af235, Quad(0xcb, 0xf5, 0xff, 0x79), 2, 0x68fef26a, 0x400, 0x1a3, 1, W65);
    Given(3, W62, W65, W64, W63, 0x2ad7d2bb, Quad(0x9d, 0xba, 0x04, 0xac), 0, 0xfeeb227b, 0x8000, 0x7f75, 0, W66);
    Given(3, W63, W66, W65, W64, 0xeb86d391, Quad(0x91, 0xef, 0x03, 0x99), 1, 0xad88d8ac, 0x200000, 0x15b11b, 1, W67);
  }

  lemma Added56(x: seq<u32>)
    requires IsPadding(x)
    ensures (x[WordIndex(56)] + Sine(56)) % TWO32 == 0x6fa87e4f
    ensures (x[WordIndex(57)] + Sine(57)) % TWO32 == 0xfe2ce6e0
    ensures (x[WordIndex(58)] + Sine(58)) % TWO32 == 0xa3014314
    ensures (x[WordIndex(59)] + Sine(59)) % TWO32 == 0x4e0811a1
    ensures (x[WordIndex(60)] + Sine(60)) % TWO32 == 0xf7537e82
    ensures (x[WordIndex(61)] + Sine(61)) % TWO32 == 0xbd3af235
    ensures (x[WordIndex(62)] + Sine(62)) % TWO32 == 0x2ad7d2bb
    ensures (x[WordIndex(63)] + Sine(63)) % TWO32 == 0xeb86d391
  {
  }

  lemma Registers56(start: Registers, x: seq<u32>, round: nat, n: nat)
    requires IsPadding(x) && round == 3 && n == 8 && Round(start, x, round, n) == Four(W56, W59, W58, W57)
    ensures Round(start, x, round, n + 8) == Four(W64, W67, W66, W65)
  {
    hide Round, Pow2, Leads, Four, Sine, WordIndex;
    ShiftPowers();
    Added56(x);
    Operations56();
    Operations60();
    Step(start, x, round, n + 0, 56, W56, W59, W58, W57, 0x6fa87e4f, 0x40, W60);
    Step(start, x, round, n + 1, 57, W57, W60, W59, W58, 0xfe2ce6e0, 0x400, W61);
    Step(start, x, round, n + 2, 58, W58, W61, W60, W59, 0xa3014314, 0x8000, W62);
    Step(start, x, round, n + 3, 59, W59, W62, W61, W60, 0x4e0811a1, 0x200000, W63);
    Step(start, x, round, n + 4, 60, W60, W63, W62, W61, 0xf7537e82, 0x40, W64);
    Step(start, x, round, n + 5, 61, W61, W64, W63, W62, 0xbd3af235, 0x400, W65);
    Step(start, x, round, n + 6, 62, W62, W65, W64, W63, 0x2ad7d2bb, 0x8000, W66);
    Step(start, x, round, n + 7, 63, W63, W66, W65, W64, 0xeb86d391, 0x200000, W67);
  }

  lemma ShiftPowers()
    ensures Pow2(4) == 0x10 && Pow2(5) == 0x20 && Pow2(6) == 0x40 && Pow2(7) == 0x80
    ensures Pow2(9) == 0x200 && Pow2(10) == 0x400 && Pow2(11) == 0x800 && Pow2(12) == 0x1000
    ensures Pow2(14) == 0x4000 && Pow2(15) == 0x8000 && Pow2(16) == 0x10000 && Pow2(17) == 0x20000
    ensures Pow2(20) == 0x100000 && Pow2(21) == 0x200000 && Pow2(22) == 0x400000 && Pow2(23) == 0x800000
  {
    assert Pow2(8) == 0x100;
    assert Pow2(16) == 0x1_0000;
  }

  lemma NoOperations(r: Registers, x: seq<u32>, round: nat)
    requires |x| == 16 && round < 4
    ensures Round(r, x, round, 0) == r
  {
  }

  lemma FirstRounds(x: seq<u32>)
    requires IsPadding(x)
    ensures Round(Round(INITIAL, x, 0, |x|), x, 1, |x|) == Four(W32, W35, W34, W33)
  {
    hide Round;
    NoOperations(INITIAL, x, 0);
    Registers0(INITIAL, x, 0, 0);
    Registers8(INITIAL, x, 0, 8);
    var second := Round(INITIAL, x, 0, 16);
    NoOperations(second, x, 1);
    Registers16(second, x, 1, 0);
    Registers24(second, x, 1, 8);
  }

  lemma LastRounds(third: Registers, x: seq<u32>)
    requires IsPadding(x) && third == Four(W32, W35, W34, W33)
    ensures Round(Round(third, x, 2, |x|), x, 3, |x|) == Four(W64, W67, W66, W65)
  {
    hide Round, Four;
    NoOperations(third, x, 2);
    Registers32(third, x, 2, 0);
    Registers40(third, x, 2, 8);
    var fourth := Round(third, x, 2, 16);
    NoOperations(fourth, x, 3);
    Registers48(fourth, x, 3, 0);
    Registers56(fourth, x, 3, 8);
  }

  lemma AllRounds(x: seq<u32>)
    requires IsPadding(x)
    ensures Rounds(INITIAL, x) == Four(W64, W67, W66, W65)
  {
    hide Round, Four;
    FirstRounds(x);
    LastRounds(Round(Round(INITIAL, x, 0, |x|), x, 1, |x|), x);
  }

  // ----- The block and the result -----

  lemma {:induction false} WordsAt(block: seq<byte>, k: nat)
    requires |block| % 4 == 0 && 4 * k < |block|
    ensures Words(block)[k] == FromLittleEndian32(block[4 * k..4 * k + 4])
    decreases |block|
  {
    hide Words, FromLittleEndian32;
    var last := |block| - 4;
    WordsAppend(block[..last], block[last..]);
    assert block[..last] + block[last..] == block;
    if 4 * k < last {
      WordsAt(block[..last], k);
      assert block[..last][4 * k..4 * k + 4] == block[4 * k..4 * k + 4];
    } else {
      assert block[4 * k..4 * k + 4] == block[last..];
    }
  }

  lemma NoOctets()
    ensures Octets([]) == []
  {
  }

  lemma EmptyPadded()
    ensures Padded([]) == [0x80] + seq(63, _ => 0)
  {
    hide Octets;
    OctetsAppend([], 0);
    OctetsAppend([0], 0);
    NoOctets();
    assert [] + [0] == [0] && [0] + [0] == [0, 0];
  }

  lemma EmptyBlock()
    ensures IsPadding(Words(Padded([])))
  {
    hide Words, Padded;
    var block := Padded([]);
    EmptyPadded();
    forall j | 0 <= j < 16
      ensures Words(block)[j] == if j == 0 then 0x80 else 0
    {
      WordsAt(block, j);
    }
  }

  lemma OctetsOf4(a: u32, b: u32, c: u32, d: u32)
    ensures Octets([a, b, c, d]) == LittleEndian32(a) + LittleEndian32(b) + LittleEndian32(c) + LittleEndian32(d)
  {
    hide Octets, LittleEndian32;
    NoOctets();
    OctetsAppend([], a);
    OctetsAppend([a], b);
    OctetsAppend([a, b], c);
    OctetsAppend([a, b, c], d);
    assert [] + [a] == [a] && [a] + [b] == [a, b] && [a, b] + [c] == [a, b, c] && [a, b, c] + [d] == [a, b, c, d];
  }

  lemma OneBlock(block: seq<byte>)
    requires |block| == 64
    ensures Chain(INITIAL, block) == Compress(INITIAL, block)
  {
    hide Compress;
    assert block[..0] == [] && block[0..] == block;
    assert Chain(INITIAL, block[..0]) == INITIAL;
  }

  lemma EmptyCompressed()
    ensures Compress(INITIAL, Padded([])) == Registers(0xd98c1dd4, 0x04b2008f, 0x980980e9, 0x7e42f8ec)
  {
    hide Rounds, Words, Padded;
    EmptyBlock();
    AllRounds(Words(Padded([])));
  }

  /** The empty string: d41d8cd98f00b204e9800998ecf8427e. */
  lemma EmptyDigest()
    ensures Digest([])
         == [0xd4, 0x1d, 0x8c, 0xd9, 0x8f, 0x00, 0xb2, 0x04, 0xe9, 0x80, 0x09, 0x98, 0xec, 0xf8, 0x42, 0x7e]
  {
    hide Compress, Padded, Chain, Octets;
    EmptyPadded();
    OneBlock(Padded([]));
    EmptyCompressed();
    OctetsOf4(0xd98c1dd4, 0x04b2008f, 0x980980e9, 0x7e42f8ec);
  }
}
