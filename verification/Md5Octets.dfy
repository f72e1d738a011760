/** The operators on words, octet by octet, as they are evaluated in the answers of RFC 1321. */
module Md5Octets {
  import opened Bytes
  import opened Words32
  import opened Md5Block

  // ----- The operators on octets -----

  /** A word as four octets, the highest first. */
  datatype Quad = Quad(o3: bv8, o2: bv8, o1: bv8, o0: bv8)

  function Octet(b: bv8): nat { b as int }

  function Value(w: Quad): u32 {
    OctetLow(w.o3);
    OctetLow(w.o2);
    OctetLow(w.o1);
    OctetLow(w.o0);
    0x100 * (0x100 * (0x100 * Octet(w.o3) + Octet(w.o2)) + Octet(w.o1)) + Octet(w.o0)
  }

  /** f is the operator on octets that op is on digits. */
  ghost predicate Implements(f: (bv8, bv8) -> bv8, op: (bool, bool) -> bool) {
    && !op(false, false) && f(0, 0) == 0
    && forall a, b :: (f(a, b) & 1 == 1 <==> op(a & 1 == 1, b & 1 == 1)) && f(a, b) >> 1 == f(a >> 1, b >> 1)
  }

  lemma OctetHalf(a: bv8)
    ensures Octet(a >> 1) == Octet(a) / 2
  {
  }

  lemma OctetLow(a: bv8)
    ensures a & 1 == 1 <==> Octet(a) % 2 == 1
    ensures Octet(a) < 0x100 && (Octet(a) == 0 <==> a == 0)
  {
  }

  /** One more digit at the bottom. */
  lemma NextDigit(op: (bool, bool) -> bool, x: nat, y: nat)
    requires !op(false, false)
    ensures Bitwise(op, x, y) == 2 * Bitwise(op, x / 2, y / 2) + if op(x % 2 == 1, y % 2 == 1) then 1 else 0
  {
  }

  lemma {:induction false} OnOctet(f: (bv8, bv8) -> bv8, op: (bool, bool) -> bool, a: bv8, b: bv8)
    requires Implements(f, op)
    ensures Bitwise(op, Octet(a), Octet(b)) == Octet(f(a, b))
    decreases Octet(a) + Octet(b)
  {
    hide Octet, Bitwise;
    OctetLow(a);
    OctetLow(b);
    OctetLow(f(a, b));
    OctetHalf(a);
    OctetHalf(b);
    OctetHalf(f(a, b));
    NextDigit(op, Octet(a), Octet(b));
    if a != 0 || b != 0 {
      OnOctet(f, op, a >> 1, b >> 1);
    } else {
      NoDigits(op);
    }
  }

  lemma NoDigits(op: (bool, bool) -> bool)
    ensures Bitwise(op, 0, 0) == 0
  {
  }

  /** An operator works on the low digits and on the others by themselves. */
  lemma {:induction false} Joined(op: (bool, bool) -> bool, x: nat, y: nat, a: nat, b: nat, n: nat, p: nat)
    requires !op(false, false) && p == Pow2(n) && a < p && b < p
    ensures Bitwise(op, p * x + a, p * y + b) == p * Bitwise(op, x, y) + Bitwise(op, a, b)
    decreases n
  {
    hide Bitwise;
    NextDigit(op, a, b);
    NextDigit(op, p * x + a, p * y + b);
    if n == 0 {
      NoDigits(op);
    } else {
      var q := Pow2(n - 1);
      Lower(p, q, x, a);
      Lower(p, q, y, b);
      Lower(p, q, Bitwise(op, x, y), 0);
      Joined(op, x, y, a / 2, b / 2, n - 1, q);
    }
  }

  lemma Lower(p: nat, q: nat, x: nat, a: nat)
    requires p == 2 * q
    ensures (p * x + a) / 2 == q * x + a / 2 && (p * x + a) % 2 == a % 2 && p * x == 2 * (q * x)
  {
  }

  function OnQuads(f: (bv8, bv8) -> bv8, v: Quad, w: Quad): Quad {
    Quad(f(v.o3, w.o3), f(v.o2, w.o2), f(v.o1, w.o1), f(v.o0, w.o0))
  }

  lemma NextOctet(f: (bv8, bv8) -> bv8, op: (bool, bool) -> bool, x: nat, y: nat, a: bv8, b: bv8)
    requires Implements(f, op)
    ensures Bitwise(op, 0x100 * x + Octet(a), 0x100 * y + Octet(b)) == 0x100 * Bitwise(op, x, y) + Octet(f(a, b))
  {
    hide Bitwise, Implements;
    OpOnFalse(f, op);
    assert Pow2(8) == 0x100;
    OnOctet(f, op, a, b);
    Joined(op, x, y, Octet(a), Octet(b), 8, 0x100);
  }

  lemma QuadsAre(f: (bv8, bv8) -> bv8, op: (bool, bool) -> bool, v: Quad, w: Quad)
    requires Implements(f, op)
    ensures OnWords(op, Value(v), Value(w)) == Value(OnQuads(f, v, w))
  {
    hide Bitwise, Implements;
    var (v3, v2, v1) := (Octet(v.o3), Octet(v.o2), Octet(v.o1));
    var (w3, w2, w1) := (Octet(w.o3), Octet(w.o2), Octet(w.o1));
    OnOctet(f, op, v.o3, w.o3);
    NextOctet(f, op, v3, w3, v.o2, w.o2);
    NextOctet(f, op, 0x100 * v3 + v2, 0x100 * w3 + w2, v.o1, w.o1);
    NextOctet(f, op, 0x100 * (0x100 * v3 + v2) + v1, 0x100 * (0x100 * w3 + w2) + w1, v.o0, w.o0);
  }

  lemma OpOnFalse(f: (bv8, bv8) -> bv8, op: (bool, bool) -> bool)
    requires Implements(f, op)
    ensures !op(false, false)
  {
  }

  // ----- The functions of the four rounds -----

  function AndOctet(a: bv8, b: bv8): bv8 { a & b }

  function OrOctet(a: bv8, b: bv8): bv8 { a | b }

  function XorOctet(a: bv8, b: bv8): bv8 { a ^ b }

  function NotQuad(w: Quad): Quad { Quad(!w.o3, !w.o2, !w.o1, !w.o0) }

  lemma Implemented()
    ensures Implements(AndOctet, Both) && Implements(OrOctet, Either) && Implements(XorOctet, Differ)
  {
  }

  lemma NotOctet(a: bv8)
    ensures Octet(!a) == 0xff - Octet(a)
  {
  }

  lemma NotQuadIs(w: Quad)
    ensures Not(Value(w)) == Value(NotQuad(w))
  {
    hide Octet;
    NotOctet(w.o3);
    NotOctet(w.o2);
    NotOctet(w.o1);
    NotOctet(w.o0);
  }

  function MixedQuad(round: nat, x: Quad, y: Quad, z: Quad): Quad
    requires round < 4
  {
    match round
    case 0 => OnQuads(OrOctet, OnQuads(AndOctet, x, y), OnQuads(AndOctet, NotQuad(x), z))
    case 1 => OnQuads(OrOctet, OnQuads(AndOctet, x, z), OnQuads(AndOctet, y, NotQuad(z)))
    case 2 => OnQuads(XorOctet, OnQuads(XorOctet, x, y), z)
    case _ => OnQuads(XorOctet, y, OnQuads(OrOctet, x, NotQuad(z)))
  }

  lemma MixedQuadIs(round: nat, n: nat, x: Quad, y: Quad, z: Quad)
    requires round < 4 && n < 16
    ensures Mixed(16 * round + n, Value(x), Value(y), Value(z)) == Value(MixedQuad(round, x, y, z))
  {
    hide Value, OnQuads, OnWords, Not, NotQuad, Implements;
    Implemented();
    NotQuadIs(x);
    NotQuadIs(z);
    match round
    case 0 =>
      QuadsAre(AndOctet, Both, x, y);
      QuadsAre(AndOctet, Both, NotQuad(x), z);
      QuadsAre(OrOctet, Either, OnQuads(AndOctet, x, y), OnQuads(AndOctet, NotQuad(x), z));
    case 1 =>
      QuadsAre(AndOctet, Both, x, z);
      QuadsAre(AndOctet, Both, y, NotQuad(z));
      QuadsAre(OrOctet, Either, OnQuads(AndOctet, x, z), OnQuads(AndOctet, y, NotQuad(z)));
    case 2 =>
      QuadsAre(XorOctet, Differ, x, y);
      QuadsAre(XorOctet, Differ, OnQuads(XorOctet, x, y), z);
    case _ =>
      QuadsAre(OrOctet, Either, x, NotQuad(z));
      QuadsAre(XorOctet, Differ, y, OnQuads(OrOctet, x, NotQuad(z)));
  }
}
