/**
 in_cksum of net_cksm.c, the Internet checksum of RFC 1071, on a little-endian machine.
 */
module Checksum {
  import opened Bytes

  const SUM_LIMIT := 0x8000_0000

  /** The i-th 16-bit word; an odd byte at the end is the low half of a word. */
  function Word(b: seq<byte>, i: nat): u16
    requires 2 * i < |b|
  {
    b[2 * i] as int + 0x100 * (if 2 * i + 1 < |b| then b[2 * i + 1] as int else 0)
  }

  function WordCount(b: seq<byte>): nat {
    (|b| + 1) / 2
  }

  /** What the loop adds up, in unbounded integers. */
  function WordSum(b: seq<byte>, n: nat): nat
    requires n <= WordCount(b)
  {
    if n == 0 then 0 else WordSum(b, n - 1) + Word(b, n - 1)
  }

  // ----- The definition of RFC 1071: one's complement addition -----

  /** Addition with an end-around carry. */
  function OnesAdd(x: u16, y: u16): u16 {
    if x + y > 0xffff then x + y - 0xffff else x + y
  }

  function OnesSum(b: seq<byte>, n: nat): u16
    requires n <= WordCount(b)
  {
    if n == 0 then 0 else OnesAdd(OnesSum(b, n - 1), Word(b, n - 1))
  }

  /** The checksum: the complement of the one's complement sum. */
  function InternetChecksum(b: seq<byte>): u16 {
    0xffff - OnesSum(b, WordCount(b))
  }

  /** The example in section 3 of RFC 1071, on a little-endian host: the octets of the sum are dd and f2. */
  lemma Example()
    ensures
      var b := [0x00, 0x01, 0xf2, 0x03, 0xf4, 0xf5, 0xf6, 0xf7];
      OnesSum(b, WordCount(b)) == 0xf2dd && InternetChecksum(b) == 0xffff - 0xf2dd
  {
    var b := [0x00, 0x01, 0xf2, 0x03, 0xf4, 0xf5, 0xf6, 0xf7];
    assert OnesSum(b, 2) == 0x04f2;
  }

  // ----- The loop and the two folds -----

  function Fold(sum: nat): nat {
    var once := sum / 0x1_0000 + sum % 0x1_0000;
    once + once / 0x1_0000
  }

  /** The representative of a sum modulo 65535 that one's complement addition yields: 0 only for 0. */
  function Canonical(sum: nat): u16 {
    if sum == 0 then 0 else (sum - 1) % 0xffff + 1
  }

  lemma CanonicalAdds(sum: nat, x: u16)
    ensures OnesAdd(Canonical(sum), x) == Canonical(sum + x)
  {
    if sum > 0 {
      var q, r := (sum - 1) / 0xffff, (sum - 1) % 0xffff;
      assert sum - 1 == 0xffff * q + r;
      if r + x >= 0xffff {
        Quotient(sum + x - 1, q + 1, r + x - 0xffff);
      } else {
        Quotient(sum + x - 1, q, r + x);
      }
    }
  }

  lemma Quotient(n: nat, q: nat, r: nat)
    requires n == 0xffff * q + r && r < 0xffff
    ensures n % 0xffff == r
  {
  }

  lemma TwoFoldsAreEnough(sum: nat)
    requires sum < SUM_LIMIT
    ensures Fold(sum) % 0x1_0000 == Canonical(sum)
  {
    var hi, lo := sum / 0x1_0000, sum % 0x1_0000;
    assert sum == 0xffff * hi + (hi + lo);
    if 0 < sum && hi + lo <= 0xffff {
      Quotient(sum - 1, hi, hi + lo - 1);
    } else if 0 < sum {
      Quotient(sum - 1, hi + 1, hi + lo - 1 - 0xffff);
    }
  }

  lemma {:induction false} OnesSumIsCanonical(b: seq<byte>, n: nat)
    requires n <= WordCount(b)
    ensures OnesSum(b, n) == Canonical(WordSum(b, n))
  {
    hide Canonical, OnesAdd;
    if n == 0 {
      NothingIsCanonical();
    } else {
      OnesSumIsCanonical(b, n - 1);
      CanonicalAdds(WordSum(b, n - 1), Word(b, n - 1));
    }
  }

  lemma NothingIsCanonical()
    ensures Canonical(0) == 0
  {
  }

  lemma {:induction false} SumIsBounded(b: seq<byte>, n: nat)
    requires n <= WordCount(b)
    ensures WordSum(b, n) <= 0xffff * n
    ensures |b| % 2 == 1 && n == WordCount(b) ==> WordSum(b, n) <= 0xffff * (n - 1) + 0xff
  {
    if n > 0 {
      SumIsBounded(b, n - 1);
    }
  }

  lemma {:induction false} AllOnes(b: seq<byte>, n: nat)
    requires 2 * n <= |b| && forall i :: 0 <= i < |b| ==> b[i] == 0xff
    ensures WordSum(b, n) == 0xffff * n
  {
    if n > 0 {
      AllOnes(b, n - 1);
    }
  }

  ghost predicate NeverOverflows(len: nat) {
    forall b: seq<byte> :: |b| == len ==> WordSum(b, WordCount(b)) < SUM_LIMIT
  }

  /** The signed 32-bit sum holds for every input of this length exactly up to 65537 bytes. */
  lemma OverflowsExactly(len: nat)
    ensures NeverOverflows(len) <==> len <= 65537
  {
    if len <= 65537 {
      forall b: seq<byte> | |b| == len
        ensures WordSum(b, WordCount(b)) < SUM_LIMIT
      {
        SumIsBounded(b, WordCount(b));
      }
    } else {
      var b: seq<byte> := seq(len, i => 0xff);
      AllOnes(b, len / 2);
      SumGrows(b, len / 2, WordCount(b));
    }
  }

  lemma {:induction false} SumGrows(b: seq<byte>, m: nat, n: nat)
    requires m <= n <= WordCount(b)
    ensures WordSum(b, m) <= WordSum(b, n)
    decreases n
  {
    if m < n {
      SumGrows(b, m, n - 1);
    }
  }

  lemma IsChecksum(b: seq<byte>)
    requires WordSum(b, WordCount(b)) < SUM_LIMIT
    ensures InternetChecksum(b) == 0xffff - Fold(WordSum(b, WordCount(b))) % 0x1_0000
  {
    TwoFoldsAreEnough(WordSum(b, WordCount(b)));
    OnesSumIsCanonical(b, WordCount(b));
  }

  lemma NoWords(b: seq<byte>)
    ensures WordSum(b, 0) == 0
  {
  }

  lemma NextWord(b: seq<byte>, w: nat)
    requires w < WordCount(b)
    ensures WordSum(b, w + 1) == WordSum(b, w) + Word(b, w)
    ensures Word(b, w) == b[2 * w] as int + 0x100 * (if 2 * w + 1 < |b| then b[2 * w + 1] as int else 0)
  {
  }

  lemma FoldIs(sum: nat)
    ensures var once := sum / 0x1_0000 + sum % 0x1_0000; Fold(sum) == once + once / 0x1_0000
  {
  }

  /** The sum is kept in 32 signed bits; overflowing them is not defined. */
  method InCksum(a: array<byte>, len: nat) returns (answer: u16)
    requires len <= a.Length && WordSum(a[..len], WordCount(a[..len])) < SUM_LIMIT
    ensures answer == InternetChecksum(a[..len])
  {
    hide InternetChecksum, WordSum, Word, Fold;
    ghost var b := a[..len];
    NoWords(b);
    var nleft, w, sum := len, 0, 0;
    while nleft > 1
      invariant len - nleft == 2 * w && 0 <= nleft
      invariant sum == WordSum(b, w)
      invariant sum < SUM_LIMIT
    {
      SumGrows(b, w + 1, WordCount(b));
      NextWord(b, w);
      sum := sum + (a[2 * w] as int + 0x100 * a[2 * w + 1] as int);
      w := w + 1;
      nleft := nleft - 2;
    }
    if nleft == 1 {
      answer := a[2 * w];
      NextWord(b, w);
      sum := sum + answer;
    }
    assert sum == WordSum(b, WordCount(b));
    IsChecksum(b);
    FoldIs(sum);
    sum := sum / 0x1_0000 + sum % 0x1_0000;
    sum := sum + sum / 0x1_0000;
    answer := 0xffff - sum % 0x1_0000;
  }

  // ----- What the checksum is for -----

  /** Stores a word at an aligned place. */
  function WithWord(b: seq<byte>, i: nat, x: u16): seq<byte>
    requires 2 * i + 1 < |b|
  {
    b[2 * i := x % 0x100][2 * i + 1 := x / 0x100]
  }

  lemma {:induction false} SumWithWord(b: seq<byte>, i: nat, x: u16, n: nat)
    requires 2 * i + 1 < |b| && n <= WordCount(b)
    ensures WordSum(WithWord(b, i, x), n) == WordSum(b, n) + if i < n then x - Word(b, i) else 0
  {
    if n > 0 {
      SumWithWord(b, i, x, n - 1);
    }
  }

  /** A packet that carries its checksum in a word that was zero when it was computed sums up to zero. */
  lemma ChecksumVerifies(b: seq<byte>, i: nat)
    requires 2 * i + 1 < |b| && Word(b, i) == 0
    ensures InternetChecksum(WithWord(b, i, InternetChecksum(b))) == 0
  {
    hide WithWord, Word;
    var n := WordCount(b);
    var x := InternetChecksum(b);
    SumWithWord(b, i, x, n);
    OnesSumIsCanonical(b, n);
    SameCount(b, i, x);
    OnesSumIsCanonical(WithWord(b, i, x), n);
    CanonicalAdds(WordSum(b, n), x);
  }

  lemma SameCount(b: seq<byte>, i: nat, x: u16)
    requires 2 * i + 1 < |b|
    ensures |WithWord(b, i, x)| == |b|
  {
  }

  /** One flipped word is noticed, unless it turns 0 into 0xffff or back. */
  lemma ChangedWordIsNoticed(b: seq<byte>, i: nat, x: u16)
    requires 2 * i + 1 < |b|
    ensures InternetChecksum(WithWord(b, i, x)) == InternetChecksum(b) ==>
              x == Word(b, i) || {x, Word(b, i)} == {0, 0xffff}
  {
    hide WithWord, Word, Canonical;
    var n := WordCount(b);
    SumWithWord(b, i, x, n);
    OnesSumIsCanonical(b, n);
    SameCount(b, i, x);
    OnesSumIsCanonical(WithWord(b, i, x), n);
    WordInSum(b, i, n);
    var rest := WordSum(b, n) - Word(b, i);
    assert WordSum(WithWord(b, i, x), n) == rest + x && WordSum(b, n) == rest + Word(b, i);
    if InternetChecksum(WithWord(b, i, x)) == InternetChecksum(b) {
      CanonicalTells(rest, Word(b, i), x);
    }
  }

  lemma {:induction false} WordInSum(b: seq<byte>, i: nat, n: nat)
    requires i < n <= WordCount(b)
    ensures Word(b, i) <= WordSum(b, n)
  {
    if i < n - 1 {
      WordInSum(b, i, n - 1);
    }
  }

  lemma CanonicalTells(rest: nat, x: u16, y: u16)
    requires Canonical(rest + x) == Canonical(rest + y)
    ensures x == y || {x, y} == {0, 0xffff}
  {
    if x != y && rest + x > 0 && rest + y > 0 {
      var q, q' := (rest + x - 1) / 0xffff, (rest + y - 1) / 0xffff;
      assert x - y == 0xffff * (q - q');
    }
  }

  function Swap(x: u16): u16 {
    x % 0x100 * 0x100 + x / 0x100
  }

  function Swapped(b: seq<byte>): seq<byte>
    requires |b| % 2 == 0
  {
    seq(|b|, k requires 0 <= k < |b| => if k % 2 == 0 then b[k + 1] else b[k - 1])
  }

  lemma SwapOf(h: byte, l: byte)
    ensures Swap(0x100 * h as int + l as int) == 0x100 * l as int + h as int
  {
  }

  lemma Halves(x: u16) returns (h: byte, l: byte)
    ensures x == 0x100 * h as int + l as int
  {
    h, l := x / 0x100, x % 0x100;
  }

  lemma SwapAdds(x: u16, y: u16)
    ensures OnesAdd(Swap(x), Swap(y)) == Swap(OnesAdd(x, y))
  {
    hide Swap;
    var h, l := Halves(x);
    var h', l' := Halves(y);
    SwapOf(h, l);
    SwapOf(h', l');
    // The carry out of the low octets, and the end-around carry.
    var low := if x + y > 0xffff then l as int + l' as int + 1 else l as int + l' as int;
    var carry := if low > 0xff then 1 else 0;
    var high := h as int + h' as int + carry - if x + y > 0xffff then 0x100 else 0;
    SwapOf(high, low - 0x100 * carry);
  }

  lemma SwappedWord(b: seq<byte>, i: nat)
    requires |b| % 2 == 0 && 2 * i < |b|
    ensures Word(Swapped(b), i) == Swap(Word(b, i))
  {
    hide Swap;
    assert Swapped(b)[2 * i] == b[2 * i + 1] && Swapped(b)[2 * i + 1] == b[2 * i];
    SwapOf(b[2 * i + 1], b[2 * i]);
  }

  lemma {:induction false} SwappedSum(b: seq<byte>, n: nat)
    requires |b| % 2 == 0 && n <= WordCount(b)
    ensures OnesSum(Swapped(b), n) == Swap(OnesSum(b, n))
  {
    hide Word, Swapped, Swap, OnesAdd;
    SameSwappedCount(b);
    if n == 0 {
      SwapOf(0, 0);
    } else {
      SwappedSum(b, n - 1);
      SwappedWord(b, n - 1);
      SwapAdds(OnesSum(b, n - 1), Word(b, n - 1));
    }
  }

  lemma SameSwappedCount(b: seq<byte>)
    requires |b| % 2 == 0
    ensures |Swapped(b)| == |b|
  {
  }

  lemma SwapComplement(x: u16)
    ensures Swap(0xffff - x) == 0xffff - Swap(x)
  {
    hide Swap;
    var h, l := Halves(x);
    SwapOf(h, l);
    SwapOf(0xff - h, 0xff - l);
  }

  /** Byte order independence: swapping the bytes of every word swaps the bytes of the checksum. */
  lemma ByteOrderIndependence(b: seq<byte>)
    requires |b| % 2 == 0
    ensures InternetChecksum(Swapped(b)) == Swap(InternetChecksum(b))
  {
    hide Swapped, Swap, OnesSum;
    SameSwappedCount(b);
    SwappedSum(b, WordCount(b));
    SwapComplement(OnesSum(b, WordCount(b)));
  }
}
