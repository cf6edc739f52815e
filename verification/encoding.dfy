/** Optional values: PHP's `null` next to a value, or a decoder that may fail. */
module Optional {
  datatype Option<+T> = None | Some(value: T)
}

/**
 * Octets, the little-endian integer layouts of PHP's `pack` ('v' = uint16,
 * 'V' = uint32, 'C' = one byte) and the lowercase hexadecimal numerals of
 * `dechex`, `str_pad(..., '0', STR_PAD_LEFT)` and `sprintf('%08x')`.
 */
module Encoding {

  /** One octet of a binary buffer. */
  type Byte = b: int | 0 <= b < 256

  const TWO16: nat := 0x1_0000
  const TWO32: nat := 0x1_0000_0000

  /** `pack('v', n)`: the low 16 bits of `n`, least significant byte first. */
  function U16(n: nat): (r: seq<Byte>)
    ensures |r| == 2
  {
    [n % 0x100, (n / 0x100) % 0x100]
  }

  /** `pack('V', n)`: the low 32 bits of `n`, least significant byte first. */
  function U32(n: nat): (r: seq<Byte>)
    ensures |r| == 4
  {
    [n % 0x100, (n / 0x100) % 0x100, (n / 0x1_0000) % 0x100, (n / 0x100_0000) % 0x100]
  }

  /** Reads the uint16 stored little-endian in the first two bytes of `s`. */
  function ReadU16(s: seq<Byte>): (n: nat)
    requires |s| >= 2
    ensures n < TWO16
  {
    s[0] as int + 0x100 * (s[1] as int)
  }

  /** Reads the uint32 stored little-endian in the first four bytes of `s`. */
  function ReadU32(s: seq<Byte>): (n: nat)
    requires |s| >= 4
    ensures n < TWO32
  {
    s[0] as int + 0x100 * (s[1] as int) + 0x1_0000 * (s[2] as int) + 0x100_0000 * (s[3] as int)
  }

  /** Packing then reading a uint16 gives back the value truncated to 16 bits. */
  lemma U16RoundTrip(n: nat)
    ensures ReadU16(U16(n)) == n % TWO16
  {
    var q := n / 0x100;
    assert n == 0x100 * q + n % 0x100;
    assert q == 0x100 * (q / 0x100) + q % 0x100;
    assert n == 0x1_0000 * (q / 0x100) + 0x100 * (q % 0x100) + n % 0x100;
  }

  /** Packing then reading a uint32 gives back the value truncated to 32 bits. */
  lemma U32RoundTrip(n: nat)
    ensures ReadU32(U32(n)) == n % TWO32
  {
    var q1 := n / 0x100;
    var q2 := q1 / 0x100;
    var q3 := q2 / 0x100;
    assert n / 0x1_0000 == q2;
    assert n / 0x100_0000 == q3;
    assert n == 0x100 * q1 + n % 0x100;
    assert q1 == 0x100 * q2 + q1 % 0x100;
    assert q2 == 0x100 * q3 + q2 % 0x100;
    assert q3 == 0x100 * (q3 / 0x100) + q3 % 0x100;
    assert n == TWO32 * (q3 / 0x100) + (0x100_0000 * (q3 % 0x100) + 0x1_0000 * (q2 % 0x100) + 0x100 * (q1 % 0x100) + n % 0x100);
  }

  // ---------------------------------------------------------------------
  // Hexadecimal numerals

  /** The lowercase hexadecimal digit of `d`, as `dechex` prints it. */
  function HexDigit(d: nat): (c: char)
    requires d < 16
  {
    if d < 10 then ('0' as int + d) as char else ('a' as int + d - 10) as char
  }

  /** The characters of the class `[0-9a-fA-F]`. */
  predicate IsHexDigit(c: char) {
    '0' <= c <= '9' || 'a' <= c <= 'f' || 'A' <= c <= 'F'
  }

  predicate AllHex(s: string) {
    forall i :: 0 <= i < |s| ==> IsHexDigit(s[i])
  }

  predicate AllLowerHex(s: string) {
    forall i :: 0 <= i < |s| ==> '0' <= s[i] <= '9' || 'a' <= s[i] <= 'f'
  }

  /** The value of one hexadecimal digit, either case. */
  function DigitValue(c: char): (d: nat)
    requires IsHexDigit(c)
    ensures d < 16
  {
    if '0' <= c <= '9' then c as int - '0' as int
    else if 'a' <= c <= 'f' then c as int - 'a' as int + 10
    else c as int - 'A' as int + 10
  }

  /** `hexdec`: the value of a numeral made of hexadecimal digits ("" is 0). */
  function ParseHex(s: string): nat
    requires AllHex(s)
  {
    if s == [] then 0 else 16 * ParseHex(s[..|s| - 1]) + DigitValue(s[|s| - 1])
  }

  /** `dechex(n)`: the shortest lowercase hexadecimal numeral of `n` ("0" for zero). */
  function Hex(n: nat): (r: string)
    ensures |r| >= 1 && AllLowerHex(r)
    decreases n
  {
    if n < 16 then [HexDigit(n)] else Hex(n / 16) + [HexDigit(n % 16)]
  }

  function Zeros(k: nat): (z: string)
    ensures |z| == k && forall i :: 0 <= i < k ==> z[i] == '0'
  {
    seq(k, _ => '0')
  }

  /**
   * `sprintf('%0Wx', n)` and `str_pad(dechex(n), W, '0', STR_PAD_LEFT)`:
   * the numeral of `n`, padded on the left with zeros to at least `w` digits.
   */
  function HexPad(n: nat, w: nat): (r: string)
    ensures AllLowerHex(r)
  {
    var h := Hex(n);
    Zeros(if |h| < w then w - |h| else 0) + h
  }

  function Pow16(k: nat): (p: nat)
    ensures p >= 1
  {
    if k == 0 then 1 else 16 * Pow16(k - 1)
  }

  /** A digit written by `HexDigit` reads back as itself. */
  lemma HexDigitValue(d: nat)
    requires d < 16
    ensures IsHexDigit(HexDigit(d)) && DigitValue(HexDigit(d)) == d
  {
  }

  /** `hexdec(dechex(n)) == n`. */
  lemma {:induction false} ParseHexOfHex(n: nat)
    ensures AllHex(Hex(n)) && ParseHex(Hex(n)) == n
    decreases n
  {
    if n < 16 {
      HexDigitValue(n);
    } else {
      ParseHexOfHex(n / 16);
      HexDigitValue(n % 16);
      var h := Hex(n);
      assert h[..|h| - 1] == Hex(n / 16);
    }
  }

  /** Leading zeros do not change the value of a numeral. */
  lemma {:induction false} ParseHexLeadingZeros(k: nat, s: string)
    requires AllHex(s)
    ensures AllHex(Zeros(k) + s) && ParseHex(Zeros(k) + s) == ParseHex(s)
    decreases |s|
  {
    var z := Zeros(k) + s;
    if s == [] {
      ParseHexZeros(k);
      assert z == Zeros(k);
    } else {
      assert z[..|z| - 1] == Zeros(k) + s[..|s| - 1];
      ParseHexLeadingZeros(k, s[..|s| - 1]);
    }
  }

  /** Padding zeros are hex digits worth nothing. */
  lemma {:induction false} ParseHexZeros(k: nat)
    ensures AllHex(Zeros(k)) && ParseHex(Zeros(k)) == 0
  {
    if k > 0 {
      assert Zeros(k)[..k - 1] == Zeros(k - 1);
      ParseHexZeros(k - 1);
    }
  }

  /** Joining two hex strings gives a hex string. */
  lemma AllHexAppend(a: string, b: string)
    requires AllHex(a) && AllHex(b)
    ensures AllHex(a + b)
  {
    var ab := a + b;
    forall i | 0 <= i < |ab| ensures IsHexDigit(ab[i]) {
      if i < |a| { assert ab[i] == a[i]; } else { assert ab[i] == b[i - |a|]; }
    }
  }

  /** The value of two numerals written one after the other. */
  lemma {:induction false} ParseHexAppend(a: string, b: string)
    requires AllHex(a) && AllHex(b)
    ensures AllHex(a + b) && ParseHex(a + b) == ParseHex(a) * Pow16(|b|) + ParseHex(b)
    decreases |b|
  {
    AllHexAppend(a, b);
    if b == [] {
      assert a + b == a;
    } else {
      var ab := a + b;
      var b' := b[..|b| - 1];
      assert ab[..|ab| - 1] == a + b';
      assert ab[|ab| - 1] == b[|b| - 1];
      ParseHexAppend(a, b');
      ShiftDigit(ParseHex(a), ParseHex(b'), Pow16(|b'|), DigitValue(b[|b| - 1]));
    }
  }

  /** One more digit after `a` followed by `b'`: the arithmetic step of `ParseHexAppend`. */
  lemma ShiftDigit(pa: int, pb: int, q: int, d: int)
    ensures 16 * (pa * q + pb) + d == pa * (16 * q) + (16 * pb + d)
  {
    assert 16 * (pa * q) == pa * (16 * q);
  }

  /** The padded numeral reads back as the number it was made from. */
  lemma HexPadRoundTrip(n: nat, w: nat)
    ensures AllHex(HexPad(n, w)) && ParseHex(HexPad(n, w)) == n
  {
    var h := Hex(n);
    ParseHexOfHex(n);
    ParseHexLeadingZeros(if |h| < w then w - |h| else 0, h);
  }

  /** A number below 16^w needs at most `w` digits. */
  lemma {:induction false} HexLength(n: nat, w: nat)
    requires w >= 1 && n < Pow16(w)
    ensures |Hex(n)| <= w
    decreases n
  {
    if n >= 16 {
      assert w >= 2;
      assert n / 16 < Pow16(w - 1);
      HexLength(n / 16, w - 1);
    }
  }

  /** Below 16^w, the padded numeral has exactly `w` digits. */
  lemma HexPadLength(n: nat, w: nat)
    requires w >= 1 && n < Pow16(w)
    ensures |HexPad(n, w)| == w
  {
    HexLength(n, w);
  }

  /** The powers of sixteen that bound two and eight hex digits. */
  lemma Pow16Values()
    ensures Pow16(2) == 0x100 && Pow16(8) == TWO32
  {
    assert Pow16(1) == 16;
    assert Pow16(4) == 0x1_0000;
  }
}
