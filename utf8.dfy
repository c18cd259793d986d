/**
 * The UTF-8 conversions between QString and QByteArray that a QVariant
 * applies: QString::toUtf8 and QString::fromUtf8 of a QByteArray, which
 * stops at the first NUL byte and turns every byte that does not start a
 * well-formed sequence into U+FFFD.
 */
module Utf8 {
  import opened Wrappers

  /** One byte of a QByteArray. */
  newtype byte = x: int | 0 <= x < 0x100

  /** The bytes before the first NUL: what a char pointer to them reads as a C string. */
  function UpToNul(b: seq<byte>): (r: seq<byte>)
    ensures r <= b && 0 !in r
    ensures |r| < |b| ==> b[|r|] == 0
    decreases |b|
  {
    if b == [] || b[0] == 0 then []
    else
      var rest := UpToNul(b[1..]);
      assert [b[0]] + rest <= b by {
        assert forall i :: 0 <= i < |rest| ==> rest[i] == b[1..][i] == b[i + 1];
      }
      [b[0]] + rest
  }

  const Replacement: char := '\U{FFFD}'

  /** The UTF-8 form of one character: one to four bytes. */
  function EncodeChar(c: char): (r: seq<byte>)
    ensures 1 <= |r| <= 4
    ensures c != '\0' ==> 0 !in r
  {
    var n := c as int;
    if n < 0x80 then [n as byte]
    else if n < 0x800 then [(0xC0 + n / 0x40) as byte, (0x80 + n % 0x40) as byte]
    else if n < 0x1_0000 then
      [(0xE0 + n / 0x1000) as byte, (0x80 + n / 0x40 % 0x40) as byte, (0x80 + n % 0x40) as byte]
    else
      [(0xF0 + n / 0x4_0000) as byte, (0x80 + n / 0x1000 % 0x40) as byte,
       (0x80 + n / 0x40 % 0x40) as byte, (0x80 + n % 0x40) as byte]
  }

  /** QString::toUtf8. */
  function Encode(s: string): seq<byte>
    decreases |s|
  {
    if s == [] then [] else EncodeChar(s[0]) + Encode(s[1..])
  }

  predicate IsContinuation(b: byte)
  {
    0x80 <= b < 0xC0
  }

  /**
   * The character a well-formed sequence at the start of `b` encodes, and
   * its length; None for a stray continuation byte, an overlong form, a
   * surrogate, a value beyond U+10FFFF or a sequence cut short.
   */
  function DecodeOne(b: seq<byte>): (r: Option<(char, nat)>)
    requires b != []
    ensures r.Some? ==> 1 <= r.value.1 <= |b|
  {
    var b0 := b[0] as int;
    if b0 < 0x80 then Some((b0 as char, 1))
    else if 0xC2 <= b0 < 0xE0 && |b| >= 2 && IsContinuation(b[1]) then
      Some((((b0 - 0xC0) * 0x40 + (b[1] as int - 0x80)) as char, 2))
    else if 0xE0 <= b0 < 0xF0 && |b| >= 3 && IsContinuation(b[1]) && IsContinuation(b[2]) then
      var n := (b0 - 0xE0) * 0x1000 + (b[1] as int - 0x80) * 0x40 + (b[2] as int - 0x80);
      if n < 0x800 || 0xD800 <= n < 0xE000 then None else Some((n as char, 3))
    else if 0xF0 <= b0 < 0xF8 && |b| >= 4 && IsContinuation(b[1]) && IsContinuation(b[2]) && IsContinuation(b[3]) then
      var n := (b0 - 0xF0) * 0x4_0000 + (b[1] as int - 0x80) * 0x1000 + (b[2] as int - 0x80) * 0x40 + (b[3] as int - 0x80);
      if n < 0x1_0000 || n > 0x10_FFFF then None else Some((n as char, 4))
    else None
  }

  /** The decoding loop: a well-formed sequence gives its character, any other byte U+FFFD. */
  function Decode(b: seq<byte>): string
    decreases |b|
  {
    if b == [] then []
    else match DecodeOne(b)
      case Some((c, k)) => [c] + Decode(b[k..])
      case None => [Replacement] + Decode(b[1..])
  }

  /** QString::fromUtf8 of a QByteArray: the text of the bytes before the first NUL. */
  function FromUtf8(b: seq<byte>): (r: string)
    ensures '\0' !in r
  {
    DecodeHasNoNul(UpToNul(b));
    Decode(UpToNul(b))
  }

  /** Only a NUL byte decodes to U+0000. */
  lemma {:induction false} DecodeHasNoNul(b: seq<byte>)
    requires 0 !in b
    ensures '\0' !in Decode(b)
    decreases |b|
  {
    if b != [] {
      match DecodeOne(b)
      case Some((c, k)) =>
        assert b[k..] == b[k..];
        assert 0 !in b[k..] by { assert forall i :: 0 <= i < |b[k..]| ==> b[k..][i] == b[i + k]; }
        DecodeHasNoNul(b[k..]);
      case None =>
        assert 0 !in b[1..] by { assert forall i :: 0 <= i < |b[1..]| ==> b[1..][i] == b[i + 1]; }
        DecodeHasNoNul(b[1..]);
    }
  }

  /** The bytes of a character read back as that character. */
  lemma DecodeEncodeChar(c: char, rest: seq<byte>)
    ensures DecodeOne(EncodeChar(c) + rest) == Some((c, |EncodeChar(c)|))
  {
    var n := c as int;
    if n < 0x80 {
    } else if n < 0x800 {
      DecodeTwo(c, rest);
    } else if n < 0x1_0000 {
      DecodeThree(c, rest);
    } else {
      DecodeFour(c, rest);
    }
  }

  lemma DecodeTwo(c: char, rest: seq<byte>)
    requires 0x80 <= c as int < 0x800
    ensures DecodeOne(EncodeChar(c) + rest) == Some((c, 2))
  {
    var n := c as int;
    var b := EncodeChar(c) + rest;
    assert b[0] as int == 0xC0 + n / 0x40 && b[1] as int == 0x80 + n % 0x40;
  }

  lemma DecodeThree(c: char, rest: seq<byte>)
    requires 0x800 <= c as int < 0x1_0000
    ensures DecodeOne(EncodeChar(c) + rest) == Some((c, 3))
  {
    var n := c as int;
    var hi, mid, lo := n / 0x1000, n / 0x40 % 0x40, n % 0x40;
    SplitThree(n);
    var b := EncodeChar(c) + rest;
    assert b[0] as int == 0xE0 + hi && b[1] as int == 0x80 + mid && b[2] as int == 0x80 + lo;
    assert (b[0] as int - 0xE0) * 0x1000 + (b[1] as int - 0x80) * 0x40 + (b[2] as int - 0x80) == n;
  }

  lemma SplitThree(n: int)
    requires 0 <= n < 0x1_0000
    ensures n == n / 0x1000 * 0x1000 + n / 0x40 % 0x40 * 0x40 + n % 0x40
    ensures 0 <= n / 0x1000 < 0x10
  {
    var q := n / 0x40;
    assert n == q * 0x40 + n % 0x40;
    assert q == q / 0x40 * 0x40 + q % 0x40;
    assert q / 0x40 == n / 0x1000;
  }

  lemma DecodeFour(c: char, rest: seq<byte>)
    requires 0x1_0000 <= c as int
    ensures DecodeOne(EncodeChar(c) + rest) == Some((c, 4))
  {
    var n := c as int;
    var top, hi, mid, lo := n / 0x4_0000, n / 0x1000 % 0x40, n / 0x40 % 0x40, n % 0x40;
    SplitFour(n);
    var b := EncodeChar(c) + rest;
    assert b[0] as int == 0xF0 + top && b[1] as int == 0x80 + hi && b[2] as int == 0x80 + mid && b[3] as int == 0x80 + lo;
    assert (b[0] as int - 0xF0) * 0x4_0000 + (b[1] as int - 0x80) * 0x1000 + (b[2] as int - 0x80) * 0x40 + (b[3] as int - 0x80) == n;
  }

  lemma SplitFour(n: int)
    requires 0 <= n < 0x11_0000
    ensures n == n / 0x4_0000 * 0x4_0000 + n / 0x1000 % 0x40 * 0x1000 + n / 0x40 % 0x40 * 0x40 + n % 0x40
    ensures 0 <= n / 0x4_0000 < 0x8
  {
    var q := n / 0x40;
    var p := q / 0x40;
    assert n == q * 0x40 + n % 0x40;
    assert q == p * 0x40 + q % 0x40;
    assert p == p / 0x40 * 0x40 + p % 0x40;
    assert p == n / 0x1000 && p / 0x40 == n / 0x4_0000;
  }

  /** Bytes that decode without a U+FFFD standing for a malformed byte. */
  predicate WellFormed(b: seq<byte>)
    decreases |b|
  {
    b == [] || (DecodeOne(b).Some? && WellFormed(b[DecodeOne(b).value.1..]))
  }

  /** A well-formed sequence is the UTF-8 form of the character it decodes to. */
  lemma EncodeDecodeOne(b: seq<byte>)
    requires b != [] && DecodeOne(b).Some?
    ensures EncodeChar(DecodeOne(b).value.0) == b[..DecodeOne(b).value.1]
  {
    var k := DecodeOne(b).value.1;
    if k == 2 {
      EncodeTwo(b[0], b[1]);
      assert b[..2] == [b[0], b[1]];
    } else if k == 3 {
      EncodeThree(b[0], b[1], b[2]);
      assert b[..3] == [b[0], b[1], b[2]];
    } else if k == 4 {
      EncodeFour(b[0], b[1], b[2], b[3]);
      assert b[..4] == [b[0], b[1], b[2], b[3]];
    }
  }

  lemma EncodeTwo(b0: byte, b1: byte)
    requires 0xC2 <= b0 < 0xE0 && IsContinuation(b1)
    ensures EncodeChar(((b0 as int - 0xC0) * 0x40 + (b1 as int - 0x80)) as char) == [b0, b1]
  {
    var n := (b0 as int - 0xC0) * 0x40 + (b1 as int - 0x80);
    assert n / 0x40 == b0 as int - 0xC0 && n % 0x40 == b1 as int - 0x80;
  }

  lemma EncodeThree(b0: byte, b1: byte, b2: byte)
    requires 0xE0 <= b0 < 0xF0 && IsContinuation(b1) && IsContinuation(b2)
    requires var n := (b0 as int - 0xE0) * 0x1000 + (b1 as int - 0x80) * 0x40 + (b2 as int - 0x80);
      0x800 <= n && !(0xD800 <= n < 0xE000)
    ensures EncodeChar(((b0 as int - 0xE0) * 0x1000 + (b1 as int - 0x80) * 0x40 + (b2 as int - 0x80)) as char) == [b0, b1, b2]
  {
    var q := (b0 as int - 0xE0) * 0x40 + (b1 as int - 0x80);
    var n := q * 0x40 + (b2 as int - 0x80);
    assert n / 0x40 == q && n % 0x40 == b2 as int - 0x80;
    assert q / 0x40 == b0 as int - 0xE0 && q % 0x40 == b1 as int - 0x80;
    DivDiv(n);
  }

  lemma EncodeFour(b0: byte, b1: byte, b2: byte, b3: byte)
    requires 0xF0 <= b0 < 0xF8 && IsContinuation(b1) && IsContinuation(b2) && IsContinuation(b3)
    requires var n := (b0 as int - 0xF0) * 0x4_0000 + (b1 as int - 0x80) * 0x1000 + (b2 as int - 0x80) * 0x40 + (b3 as int - 0x80);
      0x1_0000 <= n <= 0x10_FFFF
    ensures EncodeChar(((b0 as int - 0xF0) * 0x4_0000 + (b1 as int - 0x80) * 0x1000 + (b2 as int - 0x80) * 0x40 + (b3 as int - 0x80)) as char)
      == [b0, b1, b2, b3]
  {
    var p := (b0 as int - 0xF0) * 0x40 + (b1 as int - 0x80);
    var q := p * 0x40 + (b2 as int - 0x80);
    var n := q * 0x40 + (b3 as int - 0x80);
    assert n / 0x40 == q && n % 0x40 == b3 as int - 0x80;
    assert q / 0x40 == p && q % 0x40 == b2 as int - 0x80;
    assert p / 0x40 == b0 as int - 0xF0 && p % 0x40 == b1 as int - 0x80;
    DivDiv(n);
  }

  lemma DivDiv(n: int)
    requires 0 <= n
    ensures n / 0x40 / 0x40 == n / 0x1000 && n / 0x1000 / 0x40 == n / 0x4_0000
  {
  }

  /** toUtf8 of the text of well-formed bytes without NUL gives the bytes back. */
  lemma {:induction false} EncodeDecode(b: seq<byte>)
    requires WellFormed(b)
    ensures Encode(Decode(b)) == b
    decreases |b|
  {
    if b != [] {
      var c, k := DecodeOne(b).value.0, DecodeOne(b).value.1;
      DecodeStep(b);
      EncodeCons(c, Decode(b[k..]));
      EncodeDecodeOne(b);
      EncodeDecode(b[k..]);
      assert b == b[..k] + b[k..];
    }
  }

  lemma DecodeStep(b: seq<byte>)
    requires b != [] && DecodeOne(b).Some?
    ensures Decode(b) == [DecodeOne(b).value.0] + Decode(b[DecodeOne(b).value.1..])
  {
  }

  lemma EncodeCons(c: char, t: string)
    ensures Encode([c] + t) == EncodeChar(c) + Encode(t)
  {
    assert ([c] + t)[1..] == t;
  }

  /** toUtf8 inverts fromUtf8 on well-formed bytes without NUL. */
  lemma ToUtf8RoundTrip(b: seq<byte>)
    requires 0 !in b && WellFormed(b)
    ensures Encode(FromUtf8(b)) == b
  {
    NoNulUpToNul(b);
    EncodeDecode(b);
  }

  /** Decoding the UTF-8 form of a string gives the string back. */
  lemma {:induction false} DecodeEncode(s: string)
    ensures Decode(Encode(s)) == s
    decreases |s|
  {
    if s != [] {
      var e := EncodeChar(s[0]);
      var rest := Encode(s[1..]);
      DecodeEncodeChar(s[0], rest);
      assert (e + rest)[|e|..] == rest;
      DecodeEncode(s[1..]);
    }
  }

  /** Only U+0000 is encoded with a NUL byte. */
  lemma {:induction false} EncodeHasNoNul(s: string)
    requires '\0' !in s
    ensures 0 !in Encode(s)
    decreases |s|
  {
    if s != [] {
      assert '\0' !in s[1..] by { assert forall i :: 0 <= i < |s[1..]| ==> s[1..][i] == s[i + 1]; }
      EncodeHasNoNul(s[1..]);
    }
  }

  /** fromUtf8 inverts toUtf8 for every string without U+0000. */
  lemma FromUtf8RoundTrip(s: string)
    requires '\0' !in s
    ensures FromUtf8(Encode(s)) == s
  {
    EncodeHasNoNul(s);
    NoNulUpToNul(Encode(s));
    DecodeEncode(s);
  }

  /** Bytes without NUL are read whole. */
  lemma {:induction false} NoNulUpToNul(b: seq<byte>)
    requires 0 !in b
    ensures UpToNul(b) == b
    decreases |b|
  {
    if b != [] {
      assert 0 !in b[1..] by { assert forall i :: 0 <= i < |b[1..]| ==> b[1..][i] == b[i + 1]; }
      NoNulUpToNul(b[1..]);
    }
  }
}
