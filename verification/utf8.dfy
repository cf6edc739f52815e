/**
 * UTF-8 (RFC 3629). Text is held as a sequence of Unicode scalar values, so
 * PHP's `mb_strlen($s, 'UTF-8')` is `|s|` and PHP's byte-counting `strlen($s)`
 * is `StrLen(s)`, the length of the UTF-8 form that goes on the wire.
 */
module Utf8 {
  import opened Encoding
  import opened Optional

  /** The UTF-8 form of one scalar value (section 3 of RFC 3629). */
  function EncodeChar(c: char): (r: seq<Byte>)
    ensures 1 <= |r| <= 4
    ensures |r| == 1 <==> c as int < 0x80
  {
    var v := c as int;
    if v < 0x80 then [v]
    else if v < 0x800 then [0xC0 + v / 0x40, 0x80 + v % 0x40]
    else if v < 0x1_0000 then [0xE0 + v / 0x1000, 0x80 + (v / 0x40) % 0x40, 0x80 + v % 0x40]
    else [0xF0 + v / 0x4_0000, 0x80 + (v / 0x1000) % 0x40, 0x80 + (v / 0x40) % 0x40, 0x80 + v % 0x40]
  }

  /** The UTF-8 form of a string: the bytes PHP holds for it. */
  function Encode(s: string): (r: seq<Byte>)
    ensures |s| <= |r| <= 4 * |s|
  {
    if s == [] then [] else EncodeChar(s[0]) + Encode(s[1..])
  }

  /** PHP's `strlen`: the number of bytes of the UTF-8 form. */
  function StrLen(s: string): nat {
    |Encode(s)|
  }

  predicate IsScalar(v: int) {
    0 <= v < 0xD800 || 0xE000 <= v < 0x11_0000
  }

  predicate IsContinuation(b: Byte) {
    0x80 <= b < 0xC0
  }

  /**
   * Decodes the scalar value at the head of `s`, giving it with the number of
   * bytes it takes; None for an ill-formed, overlong or truncated sequence.
   */
  function DecodeChar(s: seq<Byte>): (r: Option<(char, nat)>)
    requires |s| > 0
    ensures r.Some? ==> 1 <= r.value.1 <= |s|
  {
    var b0 := s[0] as int;
    if b0 < 0x80 then
      Some((b0 as char, 1))
    else if 0xC2 <= b0 < 0xE0 && |s| >= 2 && IsContinuation(s[1]) then
      Some((((b0 - 0xC0) * 0x40 + Low6(s[1])) as char, 2))
    else if 0xE0 <= b0 < 0xF0 && |s| >= 3 && IsContinuation(s[1]) && IsContinuation(s[2]) then
      var v := (b0 - 0xE0) * 0x1000 + Low6(s[1]) * 0x40 + Low6(s[2]);
      if 0x800 <= v && IsScalar(v) then Some((v as char, 3)) else None
    else if 0xF0 <= b0 < 0xF5 && |s| >= 4 && IsContinuation(s[1]) && IsContinuation(s[2]) && IsContinuation(s[3]) then
      var v := (b0 - 0xF0) * 0x4_0000 + Low6(s[1]) * 0x1000 + Low6(s[2]) * 0x40 + Low6(s[3]);
      if 0x1_0000 <= v < 0x11_0000 then Some((v as char, 4)) else None
    else
      None
  }

  /** The six payload bits of a continuation byte. */
  function Low6(b: Byte): int {
    b as int - 0x80
  }

  /** Decodes a whole byte string; None unless it is well-formed UTF-8. */
  function Decode(s: seq<Byte>): Option<string>
    decreases |s|
  {
    if s == [] then Some([])
    else match DecodeChar(s)
      case None => None
      case Some((c, n)) =>
        match Decode(s[n..])
        case None => None
        case Some(rest) => Some([c] + rest)
  }

  /** Decoding the encoding of one character gives it back with its length. */
  lemma DecodeEncodeChar(c: char, rest: seq<Byte>)
    ensures DecodeChar(EncodeChar(c) + rest) == Some((c, |EncodeChar(c)|))
  {
    var v := c as int;
    if v < 0x80 {
    } else if v < 0x800 {
      DecodeTwo(c, rest);
    } else if v < 0x1_0000 {
      DecodeThree(c, rest);
    } else {
      DecodeFour(c, rest);
    }
  }

  /** The two-byte case of `DecodeEncodeChar`. */
  lemma DecodeTwo(c: char, rest: seq<Byte>)
    requires 0x80 <= c as int < 0x800
    ensures DecodeChar(EncodeChar(c) + rest) == Some((c, 2))
  {
    var v := c as int;
    var e := EncodeChar(c) + rest;
    assert e[0] == 0xC0 + v / 0x40 && e[1] == 0x80 + v % 0x40;
    assert (e[0] as int - 0xC0) * 0x40 + Low6(e[1]) == v;
  }

  /** The three-byte case of `DecodeEncodeChar`. */
  lemma DecodeThree(c: char, rest: seq<Byte>)
    requires 0x800 <= c as int < 0x1_0000
    ensures DecodeChar(EncodeChar(c) + rest) == Some((c, 3))
  {
    var v := c as int;
    var e := EncodeChar(c) + rest;
    assert e[0] == 0xE0 + v / 0x1000 && e[1] == 0x80 + (v / 0x40) % 0x40 && e[2] == 0x80 + v % 0x40;
    assert (e[0] as int - 0xE0) * 0x1000 + Low6(e[1]) * 0x40 + Low6(e[2]) == v;
  }

  /** The four-byte case of `DecodeEncodeChar`. */
  lemma DecodeFour(c: char, rest: seq<Byte>)
    requires 0x1_0000 <= c as int
    ensures DecodeChar(EncodeChar(c) + rest) == Some((c, 4))
  {
    var v := c as int;
    var e := EncodeChar(c) + rest;
    assert e[0] == 0xF0 + v / 0x4_0000 && e[1] == 0x80 + (v / 0x1000) % 0x40;
    assert e[2] == 0x80 + (v / 0x40) % 0x40 && e[3] == 0x80 + v % 0x40;
    FourByteDigits(v);
  }

  /** The base-64 digits of a four-byte scalar value give it back. */
  lemma FourByteDigits(v: int)
    requires 0x1_0000 <= v < 0x11_0000
    ensures v / 0x4_0000 < 5
    ensures (v / 0x4_0000) * 0x4_0000 + ((v / 0x1000) % 0x40) * 0x1000 + ((v / 0x40) % 0x40) * 0x40 + v % 0x40 == v
  {
  }

  /** Decoding the UTF-8 form of a string gives the string back. */
  lemma {:induction false} DecodeEncode(s: string)
    ensures Decode(Encode(s)) == Some(s)
  {
    if s != [] {
      var e := Encode(s);
      DecodeEncodeChar(s[0], Encode(s[1..]));
      assert e[|EncodeChar(s[0])|..] == Encode(s[1..]);
      DecodeEncode(s[1..]);
      assert [s[0]] + s[1..] == s;
    }
  }

  /** The UTF-8 form of a concatenation is the concatenation of the forms. */
  lemma {:induction false} EncodeAppend(a: string, b: string)
    ensures Encode(a + b) == Encode(a) + Encode(b)
  {
    if a != [] {
      assert (a + b)[0] == a[0];
      assert (a + b)[1..] == a[1..] + b;
      EncodeAppend(a[1..], b);
      calc {
        Encode(a + b);
        EncodeChar(a[0]) + Encode(a[1..] + b);
        EncodeChar(a[0]) + (Encode(a[1..]) + Encode(b));
        (EncodeChar(a[0]) + Encode(a[1..])) + Encode(b);
      }
    } else {
      assert a + b == b;
    }
  }

  /**
   * A string has as many bytes as characters exactly when it is all ASCII:
   * only then do `strlen` and `mb_strlen` agree.
   */
  lemma {:induction false} StrLenIsLengthIffAscii(s: string)
    ensures StrLen(s) == |s| <==> forall i :: 0 <= i < |s| ==> s[i] as int < 0x80
  {
    if s != [] {
      StrLenIsLengthIffAscii(s[1..]);
      assert forall i :: 1 <= i < |s| ==> s[i] == s[1..][i - 1];
      if s[0] as int < 0x80 && forall i :: 0 <= i < |s| - 1 ==> s[1..][i] as int < 0x80 {
        assert forall i :: 0 <= i < |s| ==> s[i] as int < 0x80 by {
          forall i | 0 <= i < |s| ensures s[i] as int < 0x80 {
            if i > 0 { assert s[i] == s[1..][i - 1]; }
          }
        }
      }
    }
  }
}
