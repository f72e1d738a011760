/**
 base64.c. Encoder and decoder walk over their buffers group by group; both are proved against the
 definition in section 4 of RFC 4648, where a group of octets is one 24-bit number.
 */
module Base64 {
  import opened Bytes

  type sextet = x: int | 0 <= x < 64

  const PAD: byte := 61

  // ----- The two tables -----

  /** basis_64. */
  function Basis(v: sextet): byte {
    if v < 26 then 65 + v else if v < 52 then 97 + (v - 26) else if v < 62 then 48 + (v - 52)
    else if v == 62 then 43 else 47
  }

  /** pr2six, which has 64 for whatever is no digit. */
  function Pr2six(c: byte): (v: int)
    ensures 0 <= v <= 64
  {
    if 65 <= c <= 90 then c - 65 else if 97 <= c <= 122 then c - 97 + 26 else if 48 <= c <= 57 then c - 48 + 52
    else if c == 43 then 62 else if c == 47 then 63 else 64
  }

  // The alphabet of table 1 of RFC 4648.
  const UPPER: string := "ABCDEFGHIJKLMNOPQRSTUVWXYZ"
  const LOWER: string := "abcdefghijklmnopqrstuvwxyz"
  const OTHER: string := "0123456789+/"

  lemma BasisIsAlphabet(v: sextet)
    ensures |UPPER + LOWER + OTHER| == 64 && Basis(v) == (UPPER + LOWER + OTHER)[v] as int
  {
    if v < 26 {
      UpperDigit(v);
    } else if v < 52 {
      LowerDigit(v - 26);
    }
  }

  lemma UpperDigit(k: nat)
    requires k < 26
    ensures |UPPER| == 26 && UPPER[k] as int == 65 + k
  {
  }

  lemma LowerDigit(k: nat)
    requires k < 26
    ensures |LOWER| == 26 && LOWER[k] as int == 97 + k
  {
  }

  lemma TablesAreInverse(v: sextet, c: byte)
    ensures Pr2six(Basis(v)) == v
    ensures Pr2six(c) <= 63 ==> Basis(Pr2six(c)) == c
    ensures Pr2six(PAD) == 64 && Pr2six(0) == 64
  {
  }

  // ----- 24-bit groups -----

  type group = x: int | 0 <= x < 0x100_0000

  function OctetsToGroup(a: byte, b: byte, c: byte): group {
    0x1_0000 * a as int + 0x100 * b as int + c as int
  }

  function SextetsToGroup(a: sextet, b: sextet, c: sextet, d: sextet): group {
    0x4_0000 * a as int + 0x1000 * b as int + 0x40 * c as int + d as int
  }

  function SextetAt(g: group, p: nat): sextet
    requires p < 4
  {
    if p == 0 then g / 0x4_0000 else if p == 1 then g / 0x1000 % 0x40 else if p == 2 then g / 0x40 % 0x40 else g % 0x40
  }

  function OctetAt(g: group, p: nat): byte
    requires p < 3
  {
    if p == 0 then g / 0x1_0000 else if p == 1 then g / 0x100 % 0x100 else g % 0x100
  }

  lemma SextetsRecombine(g: group)
    ensures SextetsToGroup(SextetAt(g, 0), SextetAt(g, 1), SextetAt(g, 2), SextetAt(g, 3)) == g
  {
    var h := g / 0x40;
    assert g / 0x1000 == h / 0x40 && g / 0x4_0000 == h / 0x40 / 0x40;
  }

  lemma OctetsRecombine(a: byte, b: byte, c: byte)
    ensures
      var g := OctetsToGroup(a, b, c);
      OctetAt(g, 0) == a && OctetAt(g, 1) == b && OctetAt(g, 2) == c
  {
    var h := 0x100 * a as int + b as int;
    assert OctetsToGroup(a, b, c) == 0x100 * h + c as int;
  }

  /** The shifts and masks of the encoder. */
  lemma EncoderShifts(a: byte, b: byte, c: byte)
    ensures
      var g := OctetsToGroup(a, b, c);
      && SextetAt(g, 0) == a / 4
      && SextetAt(g, 1) == a % 4 * 16 + b / 16
      && SextetAt(g, 2) == b % 16 * 4 + c / 64
      && SextetAt(g, 3) == c % 64
  {
    var (a1, a0, b1, b0) := (a as int / 4, a as int % 4, b as int / 16, b as int % 16);
    var (c1, c0) := (c as int / 64, c as int % 64);
    var g := OctetsToGroup(a, b, c);
    assert g == 0x4_0000 * a1 + 0x1000 * (a0 * 16 + b1) + 0x40 * (b0 * 4 + c1) + c0;
    GroupIs(a1, a0 * 16 + b1, b0 * 4 + c1, c0);
  }

  lemma GroupIs(a: sextet, b: sextet, c: sextet, d: sextet)
    ensures
      var g := SextetsToGroup(a, b, c, d);
      SextetAt(g, 0) == a && SextetAt(g, 1) == b && SextetAt(g, 2) == c && SextetAt(g, 3) == d
  {
    var g := SextetsToGroup(a, b, c, d);
    var h := 0x1000 * a as int + 0x40 * b as int + c as int;
    assert g / 0x40 == h && g % 0x40 == d as int;
    assert h / 0x40 == 0x40 * a as int + b as int && h % 0x40 == c as int;
    assert g / 0x1000 == h / 0x40;
  }

  /** The shifts of the decoder, truncated to an unsigned char. */
  lemma DecoderShifts(a: sextet, b: sextet, c: sextet, d: sextet)
    ensures
      var g := SextetsToGroup(a, b, c, d);
      && OctetAt(g, 0) == a * 4 + b / 16
      && OctetAt(g, 1) == b * 16 % 0x100 + c / 4
      && OctetAt(g, 2) == c * 64 % 0x100 + d
  {
    var (b1, b0, c1, c0) := (b as int / 16, b as int % 16, c as int / 4, c as int % 4);
    assert b as int * 16 % 0x100 == b0 * 16 && c as int * 64 % 0x100 == c0 * 64;
    assert SextetsToGroup(a, b, c, d) ==
      0x1_0000 * (a as int * 4 + b1) + 0x100 * (b0 * 16 + c1) + (c0 * 64 + d as int);
    OctetsRecombine(a as int * 4 + b1, b0 * 16 + c1, c0 * 64 + d as int);
  }

  // ----- What RFC 4648 says -----

  function Octet(x: seq<byte>, i: nat): byte {
    if i < |x| then x[i] else 0
  }

  function GroupOf(x: seq<byte>, k: nat): group {
    OctetsToGroup(Octet(x, 3 * k), Octet(x, 3 * k + 1), Octet(x, 3 * k + 2))
  }

  function Digit(x: seq<byte>, j: nat): byte {
    if j % 4 > |x| - 3 * (j / 4) then PAD else Basis(SextetAt(GroupOf(x, j / 4), j % 4))
  }

  function Encoded(x: seq<byte>): (c: seq<byte>)
    ensures |c| == (|x| + 2) / 3 * 4
  {
    seq((|x| + 2) / 3 * 4, j requires 0 <= j => Digit(x, j))
  }

  /** The number of base64 digits before the first other character, or before the end. */
  function Digits(c: seq<byte>): (n: nat)
    ensures n <= |c|
    ensures forall i :: 0 <= i < n ==> Pr2six(c[i]) <= 63
    ensures n < |c| ==> Pr2six(c[n]) == 64
  {
    DigitsFrom(c, 0)
  }

  function DigitsFrom(c: seq<byte>, from: nat): (n: nat)
    requires from <= |c|
    requires forall i :: 0 <= i < from ==> Pr2six(c[i]) <= 63
    ensures from <= n <= |c|
    ensures forall i :: 0 <= i < n ==> Pr2six(c[i]) <= 63
    ensures n < |c| ==> Pr2six(c[n]) == 64
    decreases |c| - from
  {
    if from < |c| && Pr2six(c[from]) <= 63 then DigitsFrom(c, from + 1) else from
  }

  function Sextet(c: seq<byte>, n: nat, i: nat): sextet
    requires n <= |c| && forall i :: 0 <= i < n ==> Pr2six(c[i]) <= 63
  {
    if i < n then Pr2six(c[i]) else 0
  }

  function CodeGroup(c: seq<byte>, n: nat, k: nat): group
    requires n <= |c| && forall i :: 0 <= i < n ==> Pr2six(c[i]) <= 63
  {
    SextetsToGroup(Sextet(c, n, 4 * k), Sextet(c, n, 4 * k + 1), Sextet(c, n, 4 * k + 2), Sextet(c, n, 4 * k + 3))
  }

  /** Six bits for every digit, cut into octets; up to six bits at the end are dropped. */
  function Decoded(c: seq<byte>): (x: seq<byte>)
    ensures |x| == Digits(c) * 3 / 4
  {
    var n := Digits(c);
    seq(n * 3 / 4, j requires 0 <= j => OctetAt(CodeGroup(c, n, j / 3), j % 3))
  }

  // ----- The round trip -----

  /** The four characters that three octets turn into, the last groups padded. */
  lemma EncodedGroup(x: seq<byte>, k: nat)
    requires 3 * k < |x|
    ensures 4 * k + 4 <= |Encoded(x)|
    ensures
      var g := GroupOf(x, k);
      && Encoded(x)[4 * k] == Basis(SextetAt(g, 0))
      && Encoded(x)[4 * k + 1] == Basis(SextetAt(g, 1))
      && Encoded(x)[4 * k + 2] == (if |x| < 3 * k + 2 then PAD else Basis(SextetAt(g, 2)))
      && Encoded(x)[4 * k + 3] == (if |x| < 3 * k + 3 then PAD else Basis(SextetAt(g, 3)))
  {
    hide GroupOf, SextetAt, Basis;
    assert (4 * k) / 4 == k && (4 * k) % 4 == 0;
    assert (4 * k + 1) / 4 == k && (4 * k + 1) % 4 == 1;
    assert (4 * k + 2) / 4 == k && (4 * k + 2) % 4 == 2;
    assert (4 * k + 3) / 4 == k && (4 * k + 3) % 4 == 3;
  }

  /** Three of the answers in section 10 of RFC 4648: f is "Zg==", fo is "Zm8=" and foo is "Zm9v". */
  lemma FirstAnswers()
    ensures Encoded([102]) == [90, 103, 61, 61]
    ensures Encoded([102, 111]) == [90, 109, 56, 61]
    ensures Encoded([102, 111, 111]) == [90, 109, 57, 118]
  {
    OneGroup([102], 25, 32, 0, 0);
    OneGroup([102, 111], 25, 38, 60, 0);
    OneGroup([102, 111, 111], 25, 38, 61, 47);
  }

  /** What up to three octets turn into, given their sextets. */
  lemma OneGroup(x: seq<byte>, a: sextet, b: sextet, c: sextet, d: sextet)
    requires 1 <= |x| <= 3 && GroupOf(x, 0) == SextetsToGroup(a, b, c, d)
    ensures
      Encoded(x) == [Basis(a), Basis(b), if |x| < 2 then PAD else Basis(c), if |x| < 3 then PAD else Basis(d)]
  {
    hide Basis, SextetAt, SextetsToGroup, GroupOf, Encoded;
    GroupIs(a, b, c, d);
    EncodedGroup(x, 0);
  }

  lemma DigitsIs(c: seq<byte>, n: nat)
    requires n <= |c| && (forall i :: 0 <= i < n ==> Pr2six(c[i]) <= 63)
    requires n < |c| ==> Pr2six(c[n]) == 64
    ensures Digits(c) == n
  {
  }

  /** A quarter of the characters, and what padding leaves of the last group. */
  lemma {:induction false} FullGroups(x: seq<byte>, k: nat)
    requires 3 * k <= |x|
    ensures 4 * k <= |Encoded(x)| && forall i :: 0 <= i < 4 * k ==> Pr2six(Encoded(x)[i]) <= 63
  {
    hide Encoded, Pr2six, Basis, SextetAt, GroupOf;
    if k > 0 {
      FullGroups(x, k - 1);
      EncodedGroup(x, k - 1);
      var g := GroupOf(x, k - 1);
      TablesAreInverse(SextetAt(g, 0), 0);
      TablesAreInverse(SextetAt(g, 1), 0);
      TablesAreInverse(SextetAt(g, 2), 0);
      TablesAreInverse(SextetAt(g, 3), 0);
    }
  }

  lemma DigitsOfEncoded(x: seq<byte>, rest: seq<byte>, k: nat)
    requires rest != [] ==> Pr2six(rest[0]) == 64
    requires 3 * k <= |x| < 3 * k + 3
    ensures Digits(Encoded(x) + rest) == 4 * k + if |x| == 3 * k then 0 else |x| - 3 * k + 1
  {
    hide Encoded, Pr2six, Basis, SextetAt, GroupOf;
    var c := Encoded(x) + rest;
    FullGroups(x, k);
    assert forall i :: 0 <= i < |Encoded(x)| ==> c[i] == Encoded(x)[i];
    if |x| == 3 * k {
      EncodedLength(x, k);
      DigitsIs(c, 4 * k);
    } else {
      EncodedGroup(x, k);
      TablesAreInverse(SextetAt(GroupOf(x, k), 0), 0);
      TablesAreInverse(SextetAt(GroupOf(x, k), 1), 0);
      TablesAreInverse(SextetAt(GroupOf(x, k), 2), 0);
      DigitsIs(c, 4 * k + (|x| - 3 * k + 1));
    }
  }

  lemma EncodedLength(x: seq<byte>, k: nat)
    requires |x| == 3 * k
    ensures |Encoded(x)| == 4 * k
  {
  }

  lemma CodeGroupOfEncoded(x: seq<byte>, rest: seq<byte>, k: nat)
    requires 3 * k < |x| && (rest != [] ==> Pr2six(rest[0]) == 64)
    ensures CodeGroup(Encoded(x) + rest, Digits(Encoded(x) + rest), k) == GroupOf(x, k)
  {
    hide Encoded, Pr2six, Basis, SextetAt, GroupOf, SextetsToGroup;
    var c := Encoded(x) + rest;
    var g := GroupOf(x, k);
    DigitsOfEncoded(x, rest, |x| / 3);
    EncodedGroup(x, k);
    NoBitsLeft(x, k);
    TablesAreInverse(SextetAt(g, 0), 0);
    TablesAreInverse(SextetAt(g, 1), 0);
    TablesAreInverse(SextetAt(g, 2), 0);
    TablesAreInverse(SextetAt(g, 3), 0);
    SextetsRecombine(g);
  }

  /** The digits that padding replaces are zero. */
  lemma NoBitsLeft(x: seq<byte>, k: nat)
    requires 3 * k < |x|
    ensures |x| < 3 * k + 2 ==> SextetAt(GroupOf(x, k), 2) == 0
    ensures |x| < 3 * k + 3 ==> SextetAt(GroupOf(x, k), 3) == 0
  {
    hide SextetAt;
    EncoderShifts(Octet(x, 3 * k), Octet(x, 3 * k + 1), Octet(x, 3 * k + 2));
  }

  lemma DecodedAt(c: seq<byte>, k: nat, q: nat)
    requires q < 3 && 3 * k + q < |Decoded(c)|
    ensures Decoded(c)[3 * k + q] == OctetAt(CodeGroup(c, Digits(c), k), q)
  {
    hide OctetAt, CodeGroup, Digits;
    assert (3 * k + q) / 3 == k && (3 * k + q) % 3 == q;
  }

  lemma DecodedLength(c: seq<byte>, k: nat, r: nat)
    requires Digits(c) == 4 * k + r && (r == k == 0 || 1 <= r <= 4)
    ensures |Decoded(c)| == if r == 0 then 0 else 3 * k + r - 1
  {
  }

  /** Decoding an encoding gives back every octet, and nothing more. */
  lemma RoundTrip(x: seq<byte>, rest: seq<byte>)
    requires rest != [] ==> Pr2six(rest[0]) == 64
    ensures Decoded(Encoded(x) + rest) == x
  {
    hide Encoded, Decoded, Pr2six, OctetAt, CodeGroup, OctetsToGroup;
    var c := Encoded(x) + rest;
    LengthsAgree(x, rest);
    forall j | 0 <= j < |x|
      ensures Decoded(c)[j] == x[j]
    {
      var k, q := j / 3, j % 3;
      DecodedAt(c, k, q);
      CodeGroupOfEncoded(x, rest, k);
      OctetsRecombine(Octet(x, 3 * k), Octet(x, 3 * k + 1), Octet(x, 3 * k + 2));
    }
  }

  lemma LengthsAgree(x: seq<byte>, rest: seq<byte>)
    requires rest != [] ==> Pr2six(rest[0]) == 64
    ensures |Decoded(Encoded(x) + rest)| == |x|
  {
    hide Encoded, Decoded, Pr2six;
    var k := |x| / 3;
    DigitsOfEncoded(x, rest, k);
    if |x| == 3 * k {
      DecodedLength(Encoded(x) + rest, if k == 0 then 0 else k - 1, if k == 0 then 0 else 4);
    } else {
      DecodedLength(Encoded(x) + rest, k, |x| - 3 * k + 1);
    }
  }

  // ----- The loops -----

  function EncodeLen(len: nat): nat {
    (len + 2) / 3 * 4 + 1
  }

  /** base64encode_binary. */
  method EncodeBinary(encoded: array<byte>, s: array<byte>, len: nat) returns (n: nat)
    requires len <= s.Length && EncodeLen(len) <= encoded.Length && s != encoded
    modifies encoded
    ensures n == EncodeLen(len)
    ensures encoded[..n] == Encoded(s[..len]) + [0]
    ensures encoded[n..] == old(encoded[n..])
  {
    hide Encoded, Basis, SextetAt, OctetsToGroup;
    ghost var x, k := s[..len], 0;
    var i, p := 0, 0;
    while i < len - 2
      invariant i == 3 * k && p == 4 * k && i <= len && p <= |Encoded(x)|
      invariant forall j :: 0 <= j < p ==> encoded[j] == Encoded(x)[j]
      invariant forall j :: p <= j < encoded.Length ==> encoded[j] == old(encoded[j])
    {
      EncodeGroup(encoded, s, len, i, p, k);
      p, i, k := p + 4, i + 3, k + 1;
    }
    p := EncodeRest(encoded, s, len, i, p, k);
    encoded[p] := 0;
    n := p + 1;
  }

  /** One pass of the loop: three octets. */
  method EncodeGroup(encoded: array<byte>, s: array<byte>, len: nat, i: nat, p: nat, ghost k: nat)
    requires len <= s.Length && EncodeLen(len) <= encoded.Length && s != encoded
    requires i == 3 * k && p == 4 * k && i + 3 <= len
    requires p <= |Encoded(s[..len])| && forall j :: 0 <= j < p ==> encoded[j] == Encoded(s[..len])[j]
    modifies encoded
    ensures p + 4 <= |Encoded(s[..len])| && forall j :: 0 <= j < p + 4 ==> encoded[j] == Encoded(s[..len])[j]
    ensures forall j :: p + 4 <= j < encoded.Length ==> encoded[j] == old(encoded[j])
  {
    hide Encoded, Basis, SextetAt, OctetsToGroup;
    EncodedGroup(s[..len], k);
    EncoderShifts(s[i], s[i + 1], s[i + 2]);
    encoded[p] := Basis(s[i] / 4);
    encoded[p + 1] := Basis(s[i] % 4 * 16 + s[i + 1] / 16);
    encoded[p + 2] := Basis(s[i + 1] % 16 * 4 + s[i + 2] / 64);
    encoded[p + 3] := Basis(s[i + 2] % 64);
  }

  /** The one or two octets that are left over, if any. */
  method EncodeRest(encoded: array<byte>, s: array<byte>, len: nat, i: nat, p: nat, ghost k: nat) returns (end: nat)
    requires len <= s.Length && EncodeLen(len) <= encoded.Length && s != encoded
    requires i == 3 * k && p == 4 * k && len - 2 <= i <= len
    requires p <= |Encoded(s[..len])| && forall j :: 0 <= j < p ==> encoded[j] == Encoded(s[..len])[j]
    modifies encoded
    ensures end == |Encoded(s[..len])| && forall j :: 0 <= j < end ==> encoded[j] == Encoded(s[..len])[j]
    ensures forall j :: end <= j < encoded.Length ==> encoded[j] == old(encoded[j])
  {
    hide Encoded, Basis, SextetAt, OctetsToGroup;
    ghost var x := s[..len];
    end := p;
    if i < len {
      EncodedGroup(x, k);
      EncoderShifts(Octet(x, i), Octet(x, i + 1), Octet(x, i + 2));
      encoded[end] := Basis(s[i] / 4);
      if i == len - 1 {
        encoded[end + 1] := Basis(s[i] % 4 * 16);
        encoded[end + 2] := PAD;
      } else {
        encoded[end + 1] := Basis(s[i] % 4 * 16 + s[i + 1] / 16);
        encoded[end + 2] := Basis(s[i + 1] % 16 * 4);
      }
      encoded[end + 3] := PAD;
      end := end + 4;
    }
  }

  predicate Terminated(c: seq<byte>) {
    Digits(c) < |c|
  }

  /** base64decode_len: room for every octet that is going to be decoded, and one more. */
  method DecodeLen(coded: array<byte>) returns (n: nat)
    requires Terminated(coded[..])
    ensures n == (Digits(coded[..]) + 3) / 4 * 3 + 1
    ensures |Decoded(coded[..])| < n
  {
    var digits := CountDigits(coded);
    n := (digits + 3) / 4 * 3 + 1;
  }

  method CountDigits(coded: array<byte>) returns (n: nat)
    requires Terminated(coded[..])
    ensures n == Digits(coded[..])
  {
    n := 0;
    while Pr2six(coded[n]) <= 63
      invariant n <= Digits(coded[..])
      decreases coded.Length - n
    {
      n := n + 1;
    }
  }

  /** What the shifts of the decoder write for the k-th group. */
  lemma DecodedGroup(c: seq<byte>, k: nat)
    ensures
      var n := Digits(c);
      var (s0, s1) := (Sextet(c, n, 4 * k), Sextet(c, n, 4 * k + 1));
      var (s2, s3) := (Sextet(c, n, 4 * k + 2), Sextet(c, n, 4 * k + 3));
      && (3 * k < |Decoded(c)| ==> Decoded(c)[3 * k] == s0 as int * 4 + s1 / 16)
      && (3 * k + 1 < |Decoded(c)| ==> Decoded(c)[3 * k + 1] == s1 as int * 16 % 0x100 + s2 / 4)
      && (3 * k + 2 < |Decoded(c)| ==> Decoded(c)[3 * k + 2] == s2 as int * 64 % 0x100 + s3)
  {
    hide Decoded, OctetAt, Sextet, Digits, SextetsToGroup;
    var n := Digits(c);
    DecoderShifts(Sextet(c, n, 4 * k), Sextet(c, n, 4 * k + 1), Sextet(c, n, 4 * k + 2), Sextet(c, n, 4 * k + 3));
    if 3 * k < |Decoded(c)| { DecodedAt(c, k, 0); }
    if 3 * k + 1 < |Decoded(c)| { DecodedAt(c, k, 1); }
    if 3 * k + 2 < |Decoded(c)| { DecodedAt(c, k, 2); }
  }

  /** base64decode_binary: what it returns is what it wrote. */
  method DecodeBinary(plain: array<byte>, coded: array<byte>) returns (n: nat)
    requires Terminated(coded[..]) && plain != coded
    requires |Decoded(coded[..])| <= plain.Length
    modifies plain
    ensures n == |Decoded(coded[..])|
    ensures plain[..n] == Decoded(coded[..])
    ensures plain[n..] == old(plain[n..])
  {
    hide Decoded, Pr2six, Sextet;
    var nprbytes := CountDigits(coded);
    ghost var c, total, k := coded[..], nprbytes, 0;
    var decoded := (nprbytes + 3) / 4 * 3;
    var i, o := 0, 0;
    while nprbytes > 4
      invariant i == 4 * k && o == 3 * k && nprbytes == total - i && (nprbytes > 0 || total == 0)
      invariant o <= |Decoded(c)|
      invariant forall j :: 0 <= j < o ==> plain[j] == Decoded(c)[j]
      invariant forall j :: o <= j < plain.Length ==> plain[j] == old(plain[j])
    {
      DecodeGroup(plain, coded, i, o, k);
      o, i, nprbytes, k := o + 3, i + 4, nprbytes - 4, k + 1;
    }
    DecodeRest(plain, coded, i, o, nprbytes, k);
    ReturnedLength(c, k, nprbytes);
    n := decoded - (4 - nprbytes) % 4;
  }

  /** One pass of the loop: four digits that are not the last ones. */
  method DecodeGroup(plain: array<byte>, coded: array<byte>, i: nat, o: nat, ghost k: nat)
    requires plain != coded && |Decoded(coded[..])| <= plain.Length
    requires i == 4 * k && o == 3 * k && Digits(coded[..]) > i + 4
    requires o <= |Decoded(coded[..])| && forall j :: 0 <= j < o ==> plain[j] == Decoded(coded[..])[j]
    modifies plain
    ensures o + 3 <= |Decoded(coded[..])| && forall j :: 0 <= j < o + 3 ==> plain[j] == Decoded(coded[..])[j]
    ensures forall j :: o + 3 <= j < plain.Length ==> plain[j] == old(plain[j])
  {
    hide Decoded, Pr2six;
    DecodedFullGroup(coded[..], k);
    plain[o] := Pr2six(coded[i]) * 4 + Pr2six(coded[i + 1]) / 16;
    plain[o + 1] := Pr2six(coded[i + 1]) * 16 % 0x100 + Pr2six(coded[i + 2]) / 4;
    plain[o + 2] := Pr2six(coded[i + 2]) * 64 % 0x100 + Pr2six(coded[i + 3]);
  }

  /** The last group: one octet less than digits, and nothing for a single digit. */
  method DecodeRest(plain: array<byte>, coded: array<byte>, i: nat, o: nat, nprbytes: nat, ghost k: nat)
    requires plain != coded && |Decoded(coded[..])| <= plain.Length
    requires i == 4 * k && o == 3 * k && Digits(coded[..]) == i + nprbytes
    requires nprbytes == k == 0 || 1 <= nprbytes <= 4
    requires o <= |Decoded(coded[..])| && forall j :: 0 <= j < o ==> plain[j] == Decoded(coded[..])[j]
    modifies plain
    ensures forall j :: 0 <= j < |Decoded(coded[..])| ==> plain[j] == Decoded(coded[..])[j]
    ensures forall j :: |Decoded(coded[..])| <= j < plain.Length ==> plain[j] == old(plain[j])
  {
    hide Decoded, Pr2six;
    ghost var c := coded[..];
    DecodedGroup(c, k);
    DecodedLength(c, k, nprbytes);
    if nprbytes > 1 {
      plain[o] := Pr2six(coded[i]) * 4 + Pr2six(coded[i + 1]) / 16;
    }
    if nprbytes > 2 {
      plain[o + 1] := Pr2six(coded[i + 1]) * 16 % 0x100 + Pr2six(coded[i + 2]) / 4;
    }
    if nprbytes > 3 {
      plain[o + 2] := Pr2six(coded[i + 2]) * 64 % 0x100 + Pr2six(coded[i + 3]);
    }
  }

  lemma ReturnedLength(c: seq<byte>, k: nat, r: nat)
    requires Digits(c) == 4 * k + r && (r == k == 0 || 1 <= r <= 4)
    ensures (Digits(c) + 3) / 4 * 3 - (4 - r) % 4 == |Decoded(c)|
  {
    hide Decoded, Digits;
    DecodedLength(c, k, r);
    assert (4 * k + r + 3) / 4 == if r == 0 then k else k + 1;
  }

  lemma DecodedFullGroup(c: seq<byte>, k: nat)
    requires Digits(c) > 4 * k + 4
    ensures 3 * k + 3 <= |Decoded(c)|
    ensures Decoded(c)[3 * k] == Pr2six(c[4 * k]) * 4 + Pr2six(c[4 * k + 1]) / 16
    ensures Decoded(c)[3 * k + 1] == Pr2six(c[4 * k + 1]) * 16 % 0x100 + Pr2six(c[4 * k + 2]) / 4
    ensures Decoded(c)[3 * k + 2] == Pr2six(c[4 * k + 2]) * 64 % 0x100 + Pr2six(c[4 * k + 3])
  {
    hide Decoded, Pr2six;
    DecodedGroup(c, k);
  }
}
