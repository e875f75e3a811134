/**
  UTF-8 encoding of strings, as `Buffer.from(s, 'utf8')` produces it for strings made
  of Unicode scalar values. The facts proved here are the ones the secret comparison
  needs: the encoding is injective, and the zero byte appears only as the encoding of NUL.
*/
module Utf8 {

  type byte = x: int | 0 <= x < 256

  const NUL: char := 0 as char

  /** The one to four bytes of `c`. */
  function EncodeChar(c: char): (r: seq<byte>)
    ensures 1 <= |r| <= 4
  {
    var n := c as int;
    if n < 0x80 then [n]
    else if n < 0x800 then [0xC0 + n / 64, 0x80 + n % 64]
    else if n < 0x10000 then
      var q1 := n / 64;
      [0xE0 + q1 / 64, 0x80 + q1 % 64, 0x80 + n % 64]
    else
      var q1 := n / 64;
      var q2 := q1 / 64;
      [0xF0 + q2 / 64, 0x80 + q2 % 64, 0x80 + q1 % 64, 0x80 + n % 64]
  }

  function Encode(s: string): seq<byte> {
    if s == [] then [] else EncodeChar(s[0]) + Encode(s[1..])
  }

  /** The length of a sequence as announced by its lead byte. */
  function LeadLength(b: byte): nat {
    if b < 0x80 then 1 else if b < 0xE0 then 2 else if b < 0xF0 then 3 else 4
  }

  /** The code point carried by a one- to four-byte sequence. */
  function CodePoint(bs: seq<byte>): int
    requires 1 <= |bs| <= 4
  {
    var b := seq(|bs|, k requires 0 <= k < |bs| => bs[k] as int);
    if |b| == 1 then b[0]
    else if |b| == 2 then (b[0] - 0xC0) * 64 + (b[1] - 0x80)
    else if |b| == 3 then ((b[0] - 0xE0) * 64 + (b[1] - 0x80)) * 64 + (b[2] - 0x80)
    else (((b[0] - 0xF0) * 64 + (b[1] - 0x80)) * 64 + (b[2] - 0x80)) * 64 + (b[3] - 0x80)
  }

  /** The lead byte tells the length, and the bytes give back the code point. */
  lemma EncodeCharDecodes(c: char)
    ensures LeadLength(EncodeChar(c)[0]) == |EncodeChar(c)|
    ensures CodePoint(EncodeChar(c)) == c as int
  {
    var n := c as int;
    var q1 := n / 64;
    var q2 := q1 / 64;
    assert n == q1 * 64 + n % 64;
    assert q1 == q2 * 64 + q1 % 64;
    assert q2 == (q2 / 64) * 64 + q2 % 64;
  }

  /** Only NUL encodes to a zero byte, and it encodes to exactly that byte. */
  lemma EncodeCharZero(c: char)
    ensures c == NUL ==> EncodeChar(c) == [0]
    ensures c != NUL ==> forall k :: 0 <= k < |EncodeChar(c)| ==> EncodeChar(c)[k] != 0
  {
  }

  /** No encoding of one character is a proper prefix of another's. */
  lemma EncodeCharUnique(c1: char, r1: seq<byte>, c2: char, r2: seq<byte>)
    requires EncodeChar(c1) + r1 == EncodeChar(c2) + r2
    ensures c1 == c2 && r1 == r2
  {
    var e1, e2 := EncodeChar(c1), EncodeChar(c2);
    EncodeCharDecodes(c1);
    EncodeCharDecodes(c2);
    assert e1[0] == (e1 + r1)[0] == (e2 + r2)[0] == e2[0];
    assert e1 == (e1 + r1)[..|e1|] == (e2 + r2)[..|e2|] == e2;
    assert r1 == (e1 + r1)[|e1|..] == (e2 + r2)[|e2|..] == r2;
  }

  lemma {:induction false} EncodeAppend(a: string, b: string)
    ensures Encode(a + b) == Encode(a) + Encode(b)
    decreases |a|
  {
    if a == [] {
      assert a + b == b;
    } else {
      assert (a + b)[1..] == a[1..] + b;
      EncodeAppend(a[1..], b);
    }
  }

  /** Different strings have different encodings. */
  lemma {:induction false} EncodeInjective(a: string, b: string)
    requires Encode(a) == Encode(b)
    ensures a == b
    decreases |a|
  {
    if a != [] {
      assert b != [];
      EncodeCharUnique(a[0], Encode(a[1..]), b[0], Encode(b[1..]));
      EncodeInjective(a[1..], b[1..]);
      assert a == [a[0]] + a[1..];
      assert b == [b[0]] + b[1..];
    } else {
      assert b == [];
    }
  }

  /** `s` without its trailing NUL characters. */
  function StripNul(s: string): (r: string)
    ensures |r| <= |s| && r == s[..|r|]
    ensures r == [] || r[|r| - 1] != NUL
    ensures forall k :: |r| <= k < |s| ==> s[k] == NUL
  {
    if s != [] && s[|s| - 1] == NUL then StripNul(s[..|s| - 1]) else s
  }

  /** `x` without its trailing zero bytes. */
  function StripZeros(x: seq<byte>): (r: seq<byte>)
    ensures |r| <= |x| && r == x[..|r|]
    ensures r == [] || r[|r| - 1] != 0
    ensures forall k :: |r| <= k < |x| ==> x[k] == 0
  {
    if x != [] && x[|x| - 1] == 0 then StripZeros(x[..|x| - 1]) else x
  }

  /** Trailing NULs of the string are exactly the trailing zero bytes of its encoding. */
  lemma {:induction false} EncodeStripNul(s: string)
    ensures Encode(StripNul(s)) == StripZeros(Encode(s))
    decreases |s|
  {
    if s != [] {
      var init, last := s[..|s| - 1], s[|s| - 1];
      assert s == init + [last];
      EncodeAppend(init, [last]);
      assert Encode([last]) == EncodeChar(last);
      EncodeCharZero(last);
      if last == NUL {
        assert Encode(s) == Encode(init) + [0];
        assert (Encode(init) + [0])[..|Encode(init)|] == Encode(init);
        EncodeStripNul(init);
      } else {
        var e := Encode(s);
        assert e[|e| - 1] == EncodeChar(last)[|EncodeChar(last)| - 1];
      }
    }
  }
}
