/**
 * UUIDs as sixteen bytes, and their `Display`: the hyphenated 8-4-4-4-12 form in
 * lower-case hexadecimal.
 */
module Uuids {
  newtype byte = x: int | 0 <= x < 256

  /** A UUID: sixteen bytes. */
  type Uuid = s: seq<byte> | |s| == 16 witness NilUuid

  /** `Uuid::nil()`. */
  const NilUuid: seq<byte> := seq(16, _ => 0)

  /** The nil UUID as displayed. */
  const NilDisplay: string := "00000000" + "-" + "0000" + "-" + "0000" + "-" + "0000" + "-" + "000000000000"

  const HexDigits: string := "0123456789abcdef"

  /** A lower-case hexadecimal digit. */
  function HexDigit(d: nat): char
    requires d < 16
  {
    HexDigits[d]
  }

  /** The value of a lower-case hexadecimal digit. */
  function HexValue(c: char): (d: nat)
    ensures d < 16
  {
    if '0' <= c <= '9' then c as nat - '0' as nat
    else if 'a' <= c <= 'f' then c as nat - 'a' as nat + 10
    else 0
  }

  /** Reading a digit back gives its value. */
  lemma HexDigitValue(d: nat)
    requires d < 16
    ensures HexValue(HexDigit(d)) == d
  {
  }

  /** A byte as two lower-case hexadecimal digits, high nibble first. */
  function HexByte(b: byte): (r: string)
    ensures |r| == 2
  {
    [HexDigit(b as nat / 16), HexDigit(b as nat % 16)]
  }

  /** The two digits give the byte back. */
  lemma HexByteRoundTrip(b: byte)
    ensures 16 * HexValue(HexByte(b)[0]) + HexValue(HexByte(b)[1]) == b as nat
  {
    HexDigitValue(b as nat / 16);
    HexDigitValue(b as nat % 16);
  }

  /** Bytes in hexadecimal, two digits each. */
  function HexBytes(bs: seq<byte>): (r: string)
    ensures |r| == 2 * |bs|
  {
    if bs == [] then [] else HexByte(bs[0]) + HexBytes(bs[1..])
  }

  /** Equal-length byte strings with the same digits are the same. */
  lemma {:induction false} HexBytesInjective(a: seq<byte>, b: seq<byte>)
    requires |a| == |b| && HexBytes(a) == HexBytes(b)
    ensures a == b
  {
    if a != [] {
      ConcatCancel(HexByte(a[0]), HexBytes(a[1..]), HexByte(b[0]), HexBytes(b[1..]));
      HexByteInjective(a[0], b[0]);
      HexBytesInjective(a[1..], b[1..]);
      assert a == [a[0]] + a[1..] && b == [b[0]] + b[1..];
    }
  }

  /** A byte's two digits determine it. */
  lemma HexByteInjective(x: byte, y: byte)
    requires HexByte(x) == HexByte(y)
    ensures x == y
  {
    HexByteRoundTrip(x);
    HexByteRoundTrip(y);
  }

  /** `Uuid`'s `Display`: 8-4-4-4-12 lower-case hexadecimal digits. */
  function Hyphenated(u: Uuid): (r: string)
    ensures |r| == 36
  {
    HexBytes(u[..4]) + ("-" + (HexBytes(u[4..6]) + ("-" + (HexBytes(u[6..8]) + ("-"
      + (HexBytes(u[8..10]) + ("-" + HexBytes(u[10..]))))))))
  }

  /** Equal concatenations with equal-length heads have equal heads and tails. */
  lemma ConcatCancel<T>(a: seq<T>, b: seq<T>, c: seq<T>, d: seq<T>)
    requires |a| == |c| && a + b == c + d
    ensures a == c && b == d
  {
    assert a == (a + b)[..|a|] && c == (c + d)[..|c|];
    assert b == (a + b)[|a|..] && d == (c + d)[|c|..];
  }

  /** Distinct blogs have distinct identifiers in their image routes. */
  lemma HyphenatedInjective(u: Uuid, v: Uuid)
    requires Hyphenated(u) == Hyphenated(v)
    ensures u == v
  {
    HyphenatedFields(u, v);
    HexBytesInjective(u[..4], v[..4]);
    HexBytesInjective(u[4..6], v[4..6]);
    HexBytesInjective(u[6..8], v[6..8]);
    HexBytesInjective(u[8..10], v[8..10]);
    HexBytesInjective(u[10..], v[10..]);
    FieldsEqual(u, v);
  }

  /** Equal displays have equal digit groups, group by group. */
  lemma HyphenatedFields(u: Uuid, v: Uuid)
    requires Hyphenated(u) == Hyphenated(v)
    ensures HexBytes(u[..4]) == HexBytes(v[..4]) && HexBytes(u[4..6]) == HexBytes(v[4..6])
    ensures HexBytes(u[6..8]) == HexBytes(v[6..8]) && HexBytes(u[8..10]) == HexBytes(v[8..10])
    ensures HexBytes(u[10..]) == HexBytes(v[10..])
  {
    var g1, g2, g3, g4 := HexBytes(u[4..6]), HexBytes(u[6..8]), HexBytes(u[8..10]), HexBytes(u[10..]);
    var h1, h2, h3, h4 := HexBytes(v[4..6]), HexBytes(v[6..8]), HexBytes(v[8..10]), HexBytes(v[10..]);
    var t4, s4 := "-" + g4, "-" + h4;
    var t3, s3 := "-" + (g3 + t4), "-" + (h3 + s4);
    var t2, s2 := "-" + (g2 + t3), "-" + (h2 + s3);
    var t1, s1 := "-" + (g1 + t2), "-" + (h1 + s2);
    ConcatCancel(HexBytes(u[..4]), t1, HexBytes(v[..4]), s1);
    ConcatCancel("-", g1 + t2, "-", h1 + s2);
    ConcatCancel(g1, t2, h1, s2);
    ConcatCancel("-", g2 + t3, "-", h2 + s3);
    ConcatCancel(g2, t3, h2, s3);
    ConcatCancel("-", g3 + t4, "-", h3 + s4);
    ConcatCancel(g3, t4, h3, s4);
    ConcatCancel("-", g4, "-", h4);
  }

  /** Two UUIDs that agree on each of the five groups are the same. */
  lemma FieldsEqual(u: Uuid, v: Uuid)
    requires u[..4] == v[..4] && u[4..6] == v[4..6] && u[6..8] == v[6..8]
    requires u[8..10] == v[8..10] && u[10..] == v[10..]
    ensures u == v
  {
    assert u == u[..4] + u[4..6] + u[6..8] + u[8..10] + u[10..];
    assert v == v[..4] + v[4..6] + v[6..8] + v[8..10] + v[10..];
  }

  /** Zero bytes print as zeros. */
  lemma {:induction false} HexBytesOfZeros(n: nat)
    ensures HexBytes(seq(n, _ => 0)) == seq(2 * n, _ => '0')
  {
    if n > 0 {
      var bs: seq<byte> := seq(n, _ => 0);
      HexBytesOfZeros(n - 1);
      assert bs[1..] == seq(n - 1, _ => 0);
      assert HexByte(0) == "00";
      assert "00" + seq(2 * (n - 1), _ => '0') == seq(2 * n, _ => '0');
    }
  }

  /** The nil UUID's groups of bytes, in hexadecimal. */
  lemma NilGroups()
    ensures HexBytes(NilUuid[..4]) == "00000000"
    ensures HexBytes(NilUuid[4..6]) == "0000" && HexBytes(NilUuid[6..8]) == "0000"
    ensures HexBytes(NilUuid[8..10]) == "0000" && HexBytes(NilUuid[10..]) == "000000000000"
  {
    HexBytesOfZeros(4);
    HexBytesOfZeros(2);
    HexBytesOfZeros(6);
    assert NilUuid[..4] == seq(4, _ => 0) && NilUuid[4..6] == seq(2, _ => 0) && NilUuid[6..8] == seq(2, _ => 0);
    assert NilUuid[8..10] == seq(2, _ => 0) && NilUuid[10..] == seq(6, _ => 0);
    assert seq(8, _ => '0') == "00000000" && seq(4, _ => '0') == "0000" && seq(12, _ => '0') == "000000000000";
  }

  /** The nil UUID's `Display`. */
  lemma NilHyphenated()
    ensures Hyphenated(NilUuid) == NilDisplay
  {
    NilGroups();
    assert "00000000" + ("-" + ("0000" + ("-" + ("0000" + ("-" + ("0000" + ("-" + "000000000000")))))))
      == NilDisplay;
  }
}
