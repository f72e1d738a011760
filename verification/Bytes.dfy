/** Octets, and the fixed-width integers that the sources store in them. */
module Bytes {
  type byte = x: int | 0 <= x < 0x100
  type u16 = x: int | 0 <= x < 0x1_0000
  type u32 = x: int | 0 <= x < 0x1_0000_0000

  const TWO32: int := 0x1_0000_0000

  /** Least significant octet first. */
  function LittleEndian32(x: u32): (bs: seq<byte>)
    ensures |bs| == 4
  {
    [x % 0x100, x / 0x100 % 0x100, x / 0x1_0000 % 0x100, x / 0x100_0000]
  }

  function FromLittleEndian32(bs: seq<byte>): u32
    requires |bs| == 4
  {
    bs[0] as int + 0x100 * bs[1] as int + 0x1_0000 * bs[2] as int + 0x100_0000 * bs[3] as int
  }

  lemma LittleEndian32RoundTrip(x: u32)
    ensures FromLittleEndian32(LittleEndian32(x)) == x
  {
    var h := x / 0x100;
    assert x / 0x1_0000 == h / 0x100;
    assert x / 0x100_0000 == h / 0x100 / 0x100;
  }

  /** Most significant octet first (network order). */
  function BigEndian32(x: u32): (bs: seq<byte>)
    ensures |bs| == 4
  {
    [x / 0x100_0000, x / 0x1_0000 % 0x100, x / 0x100 % 0x100, x % 0x100]
  }

  function FromBigEndian32(bs: seq<byte>): u32
    requires |bs| == 4
  {
    0x100_0000 * bs[0] as int + 0x1_0000 * bs[1] as int + 0x100 * bs[2] as int + bs[3] as int
  }

  lemma BigEndian32RoundTrip(x: u32)
    ensures FromBigEndian32(BigEndian32(x)) == x
  {
    var h := x / 0x100;
    assert x / 0x1_0000 == h / 0x100;
    assert x / 0x100_0000 == h / 0x100 / 0x100;
  }

  function BigEndian16(x: u16): (bs: seq<byte>)
    ensures |bs| == 2
  {
    [x / 0x100, x % 0x100]
  }

  function FromBigEndian16(bs: seq<byte>): u16
    requires |bs| == 2
  {
    0x100 * bs[0] as int + bs[1] as int
  }

  /** The first position from i on that holds c, or the end. */
  function FirstFrom<T(==)>(s: seq<T>, i: nat, c: T): (k: nat)
    requires i <= |s|
    ensures i <= k <= |s| && (k < |s| ==> s[k] == c)
    ensures c !in s[i..k]
    decreases |s| - i
  {
    if i == |s| || s[i] == c then i
    else
      var k := FirstFrom(s, i + 1, c);
      assert s[i..k] == [s[i]] + s[i + 1..k];
      k
  }

  lemma {:induction false} FirstFromIs<T>(s: seq<T>, i: nat, k: nat, c: T)
    requires i <= k <= |s| && c !in s[i..k] && (k < |s| ==> s[k] == c)
    ensures FirstFrom(s, i, c) == k
    decreases k - i
  {
    if i < k {
      assert s[i] in s[i..k] && s[i + 1..k] == s[i..k][1..];
      FirstFromIs(s, i + 1, k, c);
    }
  }

  lemma Regroup<T>(a: seq<T>, b: seq<T>, c: seq<T>)
    ensures (a + b) + c == a + (b + c)
  {
  }

  lemma LastOfSum<T>(a: seq<T>, b: seq<T>)
    requires b != []
    ensures (a + b)[..|a + b| - 1] == a + b[..|b| - 1] && (a + b)[|a + b| - 1] == b[|b| - 1]
  {
  }

  lemma Pieces<T>(s: seq<T>, i: nat, h: seq<T>, rest: seq<T>)
    requires i <= |s| && s[i..] == h + rest
    ensures i + |h| <= |s| && s[i..i + |h|] == h && s[i + |h|..] == rest
  {
    assert s[i..i + |h|] == s[i..][..|h|];
    assert s[i + |h|..] == s[i..][|h|..];
  }

  /** The octets w are found at this position. */
  ghost predicate At(m: seq<byte>, pos: nat, w: seq<byte>) {
    pos + |w| <= |m| && m[pos..pos + |w|] == w
  }

  lemma AtSplit(m: seq<byte>, pos: nat, a: seq<byte>, b: seq<byte>)
    requires At(m, pos, a + b)
    ensures At(m, pos, a) && At(m, pos + |a|, b)
  {
    assert m[pos..pos + |a|] == (a + b)[..|a|];
    assert m[pos + |a|..pos + |a| + |b|] == (a + b)[|a|..];
  }

  lemma AtSplit4(m: seq<byte>, pos: nat, a: seq<byte>, b: seq<byte>, c: seq<byte>, d: seq<byte>)
    requires At(m, pos, a + b + c + d)
    ensures At(m, pos, a) && At(m, pos + |a|, b) && At(m, pos + |a| + |b|, c) && At(m, pos + |a| + |b| + |c|, d)
  {
    hide At;
    AtSplit(m, pos, a + b + c, d);
    AtSplit(m, pos, a + b, c);
    AtSplit(m, pos, a, b);
  }

  lemma AtOctet(m: seq<byte>, pos: nat, w: seq<byte>, k: nat)
    requires At(m, pos, w) && k < |w|
    ensures m[pos + k] == w[k]
  {
    assert m[pos..pos + |w|][k] == m[pos + k];
  }
}
