/**
 * UTF-8, the encoding of `String.getBytes("UTF-8")` and of `getBytes()` under Android's
 * default charset. A decoder is given beside the encoder so that the encoding can be shown
 * to lose nothing.
 */
module Utf8 {
  import opened Wrappers

  newtype byte = x: int | 0 <= x < 256

  /** The one to four bytes UTF-8 uses for one Unicode scalar value. */
  function EncodeChar(c: char): (b: seq<byte>)
    ensures 1 <= |b| <= 4
    ensures |b| == 1 <==> (c as int) < 0x80
  {
    var n := c as int;
    if n < 0x80 then [n as byte]
    else if n < 0x800 then [(0xC0 + n / 64) as byte, (0x80 + n % 64) as byte]
    else if n < 0x10000 then
      [(0xE0 + n / 4096) as byte, (0x80 + (n / 64) % 64) as byte, (0x80 + n % 64) as byte]
    else
      [(0xF0 + n / 262144) as byte, (0x80 + (n / 4096) % 64) as byte,
       (0x80 + (n / 64) % 64) as byte, (0x80 + n % 64) as byte]
  }

  function Encode(s: string): (b: seq<byte>)
    ensures |s| <= |b| <= 4 * |s|
  {
    if s == [] then [] else EncodeChar(s[0]) + Encode(s[1..])
  }

  predicate IsContinuation(b: byte) { 0x80 <= b < 0xC0 }

  predicate IsScalar(n: int) { 0 <= n < 0xD800 || 0xE000 <= n < 0x11_0000 }

  /** The smallest scalar value that needs `len` bytes; a smaller one in `len` bytes is overlong. */
  function ShortestFrom(len: nat): int
  {
    if len <= 1 then 0 else if len == 2 then 0x80 else if len == 3 then 0x800 else 0x10000
  }

  /**
   * The scalar value of a well-formed sequence of one to four bytes, if any; overlong
   * forms such as `C0 80` for U+0000 are not well formed.
   */
  function DecodeUnit(b: seq<byte>): (r: Option<char>)
    requires 1 <= |b| <= 4
  {
    var b0 := b[0] as int;
    var n :=
      if |b| == 1 then b0
      else if |b| == 2 then (b0 - 0xC0) * 64 + (b[1] as int - 0x80)
      else if |b| == 3 then (b0 - 0xE0) * 4096 + (b[1] as int - 0x80) * 64 + (b[2] as int - 0x80)
      else (b0 - 0xF0) * 262144 + (b[1] as int - 0x80) * 4096 + (b[2] as int - 0x80) * 64
           + (b[3] as int - 0x80);
    if (forall i :: 1 <= i < |b| ==> IsContinuation(b[i])) && IsScalar(n) && n >= ShortestFrom(|b|) then
      Some(n as char)
    else None
  }

  /** The length of the unit a leading byte announces, or 0 for a byte that cannot lead. */
  function UnitLength(b0: byte): nat
  {
    if b0 < 0x80 then 1
    else if 0xC0 <= b0 < 0xE0 then 2
    else if 0xE0 <= b0 < 0xF0 then 3
    else if 0xF0 <= b0 < 0xF8 then 4
    else 0
  }

  /** Decodes a whole byte sequence; None when it is not valid UTF-8 of that shape. */
  function Decode(b: seq<byte>): Option<string>
  {
    if b == [] then Some([])
    else
      var len := UnitLength(b[0]);
      if len == 0 || len > |b| then None
      else
        match DecodeUnit(b[..len])
        case None => None
        case Some(c) =>
          match Decode(b[len..])
          case None => None
          case Some(rest) => Some([c] + rest)
  }

  /** The overlong two-byte form of U+0000 is refused. */
  lemma OverlongRejected()
    ensures Decode([0xC0, 0x80]) == None
  {
    assert [0xC0, 0x80][..2] == [0xC0 as byte, 0x80 as byte];
  }

  lemma EncodeCharUnit(c: char)
    ensures UnitLength(EncodeChar(c)[0]) == |EncodeChar(c)|
    ensures DecodeUnit(EncodeChar(c)) == Some(c)
  {
    var n := c as int;
    if n < 0x80 {
    } else if n < 0x800 {
      EncodeTwo(c);
    } else if n < 0x10000 {
      EncodeThree(c);
    } else {
      EncodeFour(c);
    }
  }

  lemma EncodeTwo(c: char)
    requires 0x80 <= c as int < 0x800
    ensures UnitLength(EncodeChar(c)[0]) == 2
    ensures DecodeUnit(EncodeChar(c)) == Some(c)
  {
    var n := c as int;
    var q, r := n / 64, n % 64;
    assert n == q * 64 + r;
    assert EncodeChar(c) == [(0xC0 + q) as byte, (0x80 + r) as byte];
  }

  lemma EncodeThree(c: char)
    requires 0x800 <= c as int < 0x10000
    ensures UnitLength(EncodeChar(c)[0]) == 3
    ensures DecodeUnit(EncodeChar(c)) == Some(c)
  {
    var n := c as int;
    var m := n / 64;
    var q, r1, r := n / 4096, m % 64, n % 64;
    assert n == m * 64 + r;
    assert m == q * 64 + r1;
    assert EncodeChar(c) == [(0xE0 + q) as byte, (0x80 + r1) as byte, (0x80 + r) as byte];
  }

  lemma EncodeFour(c: char)
    requires 0x10000 <= c as int
    ensures UnitLength(EncodeChar(c)[0]) == 4
    ensures DecodeUnit(EncodeChar(c)) == Some(c)
  {
    var n := c as int;
    var m := n / 64;
    var k := n / 4096;
    var q, r2, r1, r := n / 262144, k % 64, m % 64, n % 64;
    assert n == m * 64 + r;
    assert m == k * 64 + r1;
    assert k == q * 64 + r2;
    assert EncodeChar(c) == [(0xF0 + q) as byte, (0x80 + r2) as byte, (0x80 + r1) as byte, (0x80 + r) as byte];
  }

  /** Decoding the UTF-8 encoding of a string gives the string back. */
  lemma {:induction false} DecodeEncode(s: string)
    ensures Decode(Encode(s)) == Some(s)
  {
    if s != [] {
      var b := Encode(s);
      var u := EncodeChar(s[0]);
      EncodeCharUnit(s[0]);
      assert b[..|u|] == u;
      assert b[|u|..] == Encode(s[1..]);
      DecodeEncode(s[1..]);
      assert [s[0]] + s[1..] == s;
    }
  }

  predicate IsAscii(s: string) { forall i :: 0 <= i < |s| ==> (s[i] as int) < 0x80 }

  lemma AsciiAppend(a: string, b: string)
    requires IsAscii(a) && IsAscii(b)
    ensures IsAscii(a + b)
  {
    forall i | 0 <= i < |a + b| ensures ((a + b)[i] as int) < 0x80 {
      if i >= |a| {
        assert (a + b)[i] == b[i - |a|];
      }
    }
  }

  /** An ASCII string encodes to one byte per character: the code of that character. */
  lemma {:induction false} EncodeAscii(s: string)
    requires IsAscii(s)
    ensures |Encode(s)| == |s|
    ensures forall i :: 0 <= i < |s| ==> Encode(s)[i] as int == s[i] as int
  {
    if s != [] {
      EncodeAscii(s[1..]);
      var b := Encode(s);
      forall i | 1 <= i < |s| ensures b[i] as int == s[i] as int {
        assert b[i] == Encode(s[1..])[i - 1];
      }
    }
  }

  /** A string encodes to as many bytes as it has characters exactly when it is ASCII. */
  lemma {:induction false} EncodeLength(s: string)
    ensures |Encode(s)| >= |s|
    ensures |Encode(s)| == |s| <==> IsAscii(s)
  {
    if s != [] {
      EncodeLength(s[1..]);
      assert IsAscii(s) <==> (s[0] as int) < 0x80 && IsAscii(s[1..]) by {
        if IsAscii(s) {
          forall i | 0 <= i < |s[1..]| ensures (s[1..][i] as int) < 0x80 {
            assert s[1..][i] == s[i + 1];
          }
        }
        if (s[0] as int) < 0x80 && IsAscii(s[1..]) {
          forall i | 0 <= i < |s| ensures (s[i] as int) < 0x80 {
            if i > 0 { assert s[i] == s[1..][i - 1]; }
          }
        }
      }
    }
  }
}
