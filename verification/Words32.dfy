/**
 The bitwise operators of C on unsigned 32-bit words, as functions of numbers: what each does to every
 binary digit, and what a rotation does to the number.
 */
module Words32 {
  import opened Bytes

  function Pow2(n: nat): (p: nat)
    ensures p > 0
  {
    if n == 0 then 1 else 2 * Pow2(n - 1)
  }

  /** Binary digit i of a number. */
  predicate Bit(x: nat, i: nat) {
    x / Pow2(i) % 2 == 1
  }

  // ----- The operators, digit by digit from the lowest up -----

  function Both(p: bool, q: bool): bool { p && q }

  function Either(p: bool, q: bool): bool { p || q }

  function Differ(p: bool, q: bool): bool { p != q }

  /** The number with a digit where `op` says so; beyond the highest digit of both there is none. */
  function Bitwise(op: (bool, bool) -> bool, x: nat, y: nat): nat
    decreases x + y
  {
    if x == 0 && y == 0 then 0
    else 2 * Bitwise(op, x / 2, y / 2) + if op(x % 2 == 1, y % 2 == 1) then 1 else 0
  }

  lemma {:induction false} Fits(op: (bool, bool) -> bool, x: nat, y: nat, n: nat)
    requires x < Pow2(n) && y < Pow2(n)
    ensures Bitwise(op, x, y) < Pow2(n)
  {
    if n > 0 {
      Fits(op, x / 2, y / 2, n - 1);
    }
  }

  lemma WordSize()
    ensures Pow2(32) == TWO32
  {
    assert Pow2(8) == 0x100;
    assert Pow2(16) == 0x1_0000;
    assert Pow2(24) == 0x100_0000;
  }

  function OnWords(op: (bool, bool) -> bool, x: u32, y: u32): u32 {
    WordSize();
    Fits(op, x, y, 32);
    Bitwise(op, x, y)
  }

  function And(x: u32, y: u32): u32 { OnWords(Both, x, y) }

  function Or(x: u32, y: u32): u32 { OnWords(Either, x, y) }

  function Xor(x: u32, y: u32): u32 { OnWords(Differ, x, y) }

  function Not(x: u32): u32 { TWO32 - 1 - x }

  function ShiftLeft(x: u32, n: nat): u32 {
    x * Pow2(n) % TWO32
  }

  function ShiftRight(x: u32, n: nat): u32 {
    Shrinks(x, n);
    x / Pow2(n)
  }

  lemma {:induction false} Shrinks(x: nat, n: nat)
    ensures 0 <= x / Pow2(n) <= x
  {
    if n > 0 {
      DivideTwice(x, Pow2(n - 1));
      Shrinks(x / 2, n - 1);
    }
  }

  function RotateLeft(x: u32, n: nat): u32
    requires n < 32
  {
    Or(ShiftLeft(x, n), ShiftRight(x, 32 - n))
  }

  // ----- What they do to every digit -----

  /** The lowest digit, and the others one place down. */
  lemma Digits(x: nat, i: nat)
    ensures Bit(x, 0) <==> x % 2 == 1
    ensures i > 0 ==> (Bit(x, i) <==> Bit(x / 2, i - 1))
  {
    if i > 0 {
      DivideTwice(x, Pow2(i - 1));
    }
  }

  lemma DivideTwice(x: nat, p: nat)
    requires p > 0
    ensures x / (2 * p) == x / 2 / p
  {
    var q, r := x / 2 / p, x / 2 % p;
    assert x / 2 == p * q + r;
    assert x == 2 * p * q + (2 * r + x % 2) by {
      assert 2 * (p * q) == 2 * p * q;
    }
    Quotient(x, 2 * p, q, 2 * r + x % 2);
  }

  lemma Quotient(x: int, m: int, q: int, r: int)
    requires 0 <= r < m && x == m * q + r
    ensures x / m == q && x % m == r
  {
    var d := x / m - q;
    assert x == m * (x / m) + x % m;
    assert m * d == r - x % m by {
      assert m * d == m * (x / m) - m * q;
    }
    assert d >= 1 ==> m * d >= m;
    assert d <= -1 ==> m * d <= -m;
  }

  lemma BitwiseDigits(op: (bool, bool) -> bool, x: nat, y: nat)
    requires !op(false, false)
    ensures Bitwise(op, x, y) % 2 == 1 <==> op(x % 2 == 1, y % 2 == 1)
    ensures Bitwise(op, x, y) / 2 == Bitwise(op, x / 2, y / 2)
  {
  }

  lemma {:induction false} BitwiseBit(op: (bool, bool) -> bool, x: nat, y: nat, i: nat)
    requires !op(false, false)
    ensures Bit(Bitwise(op, x, y), i) <==> op(Bit(x, i), Bit(y, i))
    decreases i
  {
    hide Bit, Bitwise;
    BitwiseDigits(op, x, y);
    Digits(x, i);
    Digits(y, i);
    Digits(Bitwise(op, x, y), i);
    if i > 0 {
      BitwiseBit(op, x / 2, y / 2, i - 1);
    }
  }

  lemma AndBit(x: u32, y: u32, i: nat)
    ensures Bit(And(x, y), i) <==> Bit(x, i) && Bit(y, i)
  {
    hide Bit, Bitwise;
    BitwiseBit(Both, x, y, i);
  }

  lemma OrBit(x: u32, y: u32, i: nat)
    ensures Bit(Or(x, y), i) <==> Bit(x, i) || Bit(y, i)
  {
    hide Bit, Bitwise;
    BitwiseBit(Either, x, y, i);
  }

  lemma XorBit(x: u32, y: u32, i: nat)
    ensures Bit(Xor(x, y), i) <==> Bit(x, i) != Bit(y, i)
  {
    hide Bit, Bitwise;
    BitwiseBit(Differ, x, y, i);
  }

  /** The complement of a number of n digits. */
  lemma {:induction false} ComplementBit(x: nat, n: nat, i: nat)
    requires x < Pow2(n) && i < n
    ensures Bit(Pow2(n) - 1 - x, i) <==> !Bit(x, i)
    decreases i
  {
    hide Bit;
    Digits(x, i);
    Digits(Pow2(n) - 1 - x, i);
    assert Pow2(n) == 2 * Pow2(n - 1);
    if i > 0 {
      ComplementBit(x / 2, n - 1, i - 1);
      assert (Pow2(n) - 1 - x) / 2 == Pow2(n - 1) - 1 - x / 2;
    }
  }

  lemma NotBit(x: u32, i: nat)
    requires i < 32
    ensures Bit(Not(x), i) <==> !Bit(x, i)
  {
    hide Pow2, Bit;
    WordSize();
    ComplementBit(x, 32, i);
  }

  // ----- Octets of a word -----

  lemma BigEndianOctet(x: u32, k: nat)
    requires k < 4
    ensures BigEndian32(x)[k] == x / Pow2(8 * (3 - k)) % 0x100
  {
    OctetPowers();
  }

  lemma LittleEndianOctet(x: u32, k: nat)
    requires k < 4
    ensures LittleEndian32(x)[k] == x / Pow2(8 * k) % 0x100
  {
    OctetPowers();
  }

  lemma OctetPowers()
    ensures Pow2(0) == 1 && Pow2(8) == 0x100 && Pow2(16) == 0x1_0000 && Pow2(24) == 0x100_0000
  {
    assert Pow2(8) == 0x100;
    assert Pow2(16) == 0x1_0000;
  }

  // ----- Rotation -----

  lemma EvenMultiple(x: nat, n: nat)
    requires n > 0
    ensures x * Pow2(n) == 2 * (x * Pow2(n - 1))
  {
    Doubled(Pow2(n - 1), x, Pow2(n), 2 * (Pow2(n - 1) * x));
  }

  /** Numbers whose digits do not meet add up. */
  lemma {:induction false} OrIsSum(x: nat, high: nat, low: nat, n: nat)
    requires high == x * Pow2(n) && low < Pow2(n)
    ensures Bitwise(Either, high, low) == high + low
    decreases n, high
  {
    if n > 0 {
      var half := x * Pow2(n - 1);
      EvenMultiple(x, n);
      OrIsSum(x, half, low / 2, n - 1);
      OrHalves(high, low, half, low / 2);
    } else if high > 0 {
      OrIsSum(high / 2, high / 2, 0, 0);
    }
  }

  lemma OrHalves(x: nat, y: nat, x': nat, y': nat)
    requires x == 2 * x' && y' == y / 2 && Bitwise(Either, x', y') == x' + y'
    ensures Bitwise(Either, x, y) == x + y
  {
  }

  lemma {:induction false} Powers(m: nat, n: nat)
    ensures Pow2(m + n) == Pow2(m) * Pow2(n)
  {
    if m > 0 {
      Powers(m - 1, n);
      Doubled(Pow2(m - 1), Pow2(n), Pow2(m), Pow2(m + n));
    }
  }

  lemma Doubled(a: nat, b: nat, c: nat, d: nat)
    requires c == 2 * a && d == 2 * (a * b)
    ensures d == c * b
  {
  }

  /** The low digits move up by n places, and the n highest come down to the bottom. */
  lemma RotateLeftIs(x: u32, n: nat)
    requires n < 32
    ensures RotateLeft(x, n) == x * Pow2(n) % TWO32 + x / Pow2(32 - n)
  {
    hide Pow2, Bitwise;
    var p, q := Pow2(n), Pow2(32 - n);
    Powers(n, 32 - n);
    WordSize();
    Shrinks(x, 32 - n);
    Parted(x, p, q);
    OrIsSum(x % q, x % q * p, x / q, n);
  }

  lemma Parted(x: u32, p: nat, q: nat)
    requires p > 0 && q > 0 && p * q == TWO32
    requires x / q >= 0
    ensures x * p % TWO32 == x % q * p && x / q < p
  {
    var high, low := x / q, x % q;
    assert x == q * high + low;
    Regrouped(p, q, high, low);
    Within(low, p, q);
    Quotient(x * p, TWO32, high, low * p);
    Fewer(q, high, p);
  }

  lemma Fewer(q: nat, high: int, p: nat)
    requires q > 0 && q * high < p * q
    ensures high < p
  {
    assert q * (high - p) < 0;
    assert high - p >= 0 ==> q * (high - p) >= 0;
  }

  lemma Regrouped(p: nat, q: nat, high: nat, low: nat)
    ensures (q * high + low) * p == p * q * high + low * p
  {
    assert q * high * p == p * q * high;
  }

  lemma Within(x: nat, p: nat, limit: nat)
    requires x < limit
    ensures 0 <= x * p <= (limit - 1) * p == limit * p - p
  {
  }
}
