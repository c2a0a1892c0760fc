/** UTF-8 as both ends of the clipboard bridge use it.

    The guest encodes with TextEncoder, the standard UTF-8 encoding of each
    character. The host decodes with QString::fromUtf8 (Qt 6): a well-formed
    sequence gives its character; a byte that does not start one (a stray
    continuation byte, an overlong form, an encoded surrogate, a value above
    U+10FFFF, or a sequence cut short) gives one U+FFFD and decoding resumes at
    the next byte; and three leading bytes EF BB BF, a byte-order mark, are
    dropped. Characters here are Unicode scalar values, as in Dafny's string. */
module Utf8 {
  import opened Strings

  const ReplacementChar: char := '\U{FFFD}'
  const ByteOrderMark: char := '\U{FEFF}'

  /** TextEncoder's bytes for one character. */
  function EncodeChar(c: char): (r: seq<Byte>)
    ensures 1 <= |r| <= 4
  {
    var n := c as int;
    if n < 0x80 then [n]
    else if n < 0x800 then [0xC0 + n / 64, 0x80 + n % 64]
    else if n < 0x10000 then [0xE0 + n / 4096, 0x80 + (n / 64) % 64, 0x80 + n % 64]
    else [0xF0 + n / 262144, 0x80 + (n / 4096) % 64, 0x80 + (n / 64) % 64, 0x80 + n % 64]
  }

  /** TextEncoder.encode. */
  function Encode(s: string): seq<Byte>
    decreases |s|
  {
    if s == [] then [] else EncodeChar(s[0]) + Encode(s[1..])
  }

  predicate IsContinuation(b: Byte) {
    0x80 <= b < 0xC0
  }

  /** The character decoded at the front of b and the number of bytes it takes. */
  function DecodeOne(b: seq<Byte>): (r: (char, nat))
    requires |b| > 0
    ensures 1 <= r.1 <= |b|
  {
    var b0: int := b[0];
    var b1: int := if |b| > 1 then b[1] else 0;
    var b2: int := if |b| > 2 then b[2] else 0;
    var b3: int := if |b| > 3 then b[3] else 0;
    if b0 < 0x80 then (b0 as char, 1)
    else if b0 <= 0xC1 then (ReplacementChar, 1)
    else if b0 < 0xE0 then
      if |b| >= 2 && IsContinuation(b[1]) then (((b0 % 32) * 64 + b1 % 64) as char, 2)
      else (ReplacementChar, 1)
    else if b0 < 0xF0 then
      if |b| >= 3 && IsContinuation(b[1]) && IsContinuation(b[2]) then
        var n := (b0 % 16) * 4096 + (b1 % 64) * 64 + b2 % 64;
        if n < 0x800 || (0xD800 <= n && n < 0xE000) then (ReplacementChar, 1)
        else (n as char, 3)
      else (ReplacementChar, 1)
    else if b0 < 0xF5 then
      if |b| >= 4 && IsContinuation(b[1]) && IsContinuation(b[2]) && IsContinuation(b[3]) then
        var n := (b0 % 8) * 262144 + (b1 % 64) * 4096 + (b2 % 64) * 64 + b3 % 64;
        if n < 0x10000 || n > 0x10FFFF then (ReplacementChar, 1)
        else (n as char, 4)
      else (ReplacementChar, 1)
    else (ReplacementChar, 1)
  }

  function DecodeBody(b: seq<Byte>): string
    decreases |b|
  {
    if b == [] then []
    else
      var (c, width) := DecodeOne(b);
      [c] + DecodeBody(b[width..])
  }

  predicate StartsWithBom(b: seq<Byte>) {
    |b| >= 3 && b[0] == 0xEF && b[1] == 0xBB && b[2] == 0xBF
  }

  /** QString::fromUtf8. */
  function Decode(b: seq<Byte>): string {
    if StartsWithBom(b) then DecodeBody(b[3..]) else DecodeBody(b)
  }

  lemma ThreeByteParts(n: int)
    requires 0 <= n
    ensures (n / 4096) * 4096 + ((n / 64) % 64) * 64 + n % 64 == n
  {
    var m := n / 64;
    assert n == m * 64 + n % 64;
    assert m == (m / 64) * 64 + m % 64;
    assert m / 64 == n / 4096;
  }

  lemma FourByteParts(n: int)
    requires 0 <= n
    ensures (n / 262144) * 262144 + ((n / 4096) % 64) * 4096 + ((n / 64) % 64) * 64 + n % 64 == n
  {
    var k := n / 4096;
    ThreeByteParts(n);
    assert k == (k / 64) * 64 + k % 64;
    assert k / 64 == n / 262144;
  }

  lemma DecodeTwo(c: char, rest: seq<Byte>)
    requires 0x80 <= c as int < 0x800
    ensures DecodeOne(EncodeChar(c) + rest) == (c, 2)
  {
    var n := c as int;
    var b := EncodeChar(c) + rest;
    assert b[0] == 0xC0 + n / 64 && b[1] == 0x80 + n % 64;
    assert b[0] % 32 == n / 64 && b[1] % 64 == n % 64;
  }

  lemma DecodeThree(c: char, rest: seq<Byte>)
    requires 0x800 <= c as int < 0x10000
    ensures DecodeOne(EncodeChar(c) + rest) == (c, 3)
  {
    var n := c as int;
    var b := EncodeChar(c) + rest;
    assert b[0] == 0xE0 + n / 4096 && b[1] == 0x80 + (n / 64) % 64 && b[2] == 0x80 + n % 64;
    assert b[0] % 16 == n / 4096 && b[1] % 64 == (n / 64) % 64 && b[2] % 64 == n % 64;
    ThreeByteParts(n);
  }

  lemma FourByteDigits(n: int)
    requires 0x10000 <= n <= 0x10FFFF
    ensures 0 <= n / 262144 < 5
    ensures (0xF0 + n / 262144) % 8 == n / 262144 && (0x80 + (n / 4096) % 64) % 64 == (n / 4096) % 64
    ensures (0x80 + (n / 64) % 64) % 64 == (n / 64) % 64 && (0x80 + n % 64) % 64 == n % 64
    ensures (n / 262144) * 262144 + ((n / 4096) % 64) * 4096 + ((n / 64) % 64) * 64 + n % 64 == n
  {
    FourByteParts(n);
  }

  lemma DecodeFour(c: char, rest: seq<Byte>)
    requires 0x10000 <= c as int
    ensures DecodeOne(EncodeChar(c) + rest) == (c, 4)
  {
    var n := c as int;
    var b := EncodeChar(c) + rest;
    FourByteDigits(n);
    assert b[0] == 0xF0 + n / 262144 && b[1] == 0x80 + (n / 4096) % 64;
    assert b[2] == 0x80 + (n / 64) % 64 && b[3] == 0x80 + n % 64;
  }

  /** The decoder reads back exactly the character the encoder wrote, whatever follows. */
  lemma DecodeOneEncodeChar(c: char, rest: seq<Byte>)
    ensures DecodeOne(EncodeChar(c) + rest) == (c, |EncodeChar(c)|)
  {
    var n := c as int;
    if n < 0x80 {
    } else if n < 0x800 {
      DecodeTwo(c, rest);
    } else if n < 0x10000 {
      DecodeThree(c, rest);
    } else {
      DecodeFour(c, rest);
    }
  }

  lemma {:induction false} DecodeBodyEncode(s: string)
    ensures DecodeBody(Encode(s)) == s
    decreases |s|
  {
    if s != [] {
      var e := EncodeChar(s[0]);
      DecodeOneEncodeChar(s[0], Encode(s[1..]));
      assert (e + Encode(s[1..]))[|e|..] == Encode(s[1..]);
      DecodeBodyEncode(s[1..]);
    }
  }

  /** Only a leading U+FEFF makes the encoded text start with a byte-order mark. */
  lemma EncodeStartsWithBom(s: string)
    ensures StartsWithBom(Encode(s)) <==> s != [] && s[0] == ByteOrderMark
  {
    if s != [] {
      var n := s[0] as int;
      var e := EncodeChar(s[0]);
      assert Encode(s) == e + Encode(s[1..]);
      if StartsWithBom(Encode(s)) {
        assert e[0] == 0xEF;
        assert 0xF000 <= n < 0x10000;
        assert (n / 64) % 64 == 0x3B && n % 64 == 0x3F;
        ThreeByteParts(n);
      }
    }
  }

  /** Round trip through TextEncoder and QString::fromUtf8: the text comes back
      unchanged, except that a leading U+FEFF is taken for a byte-order mark and dropped. */
  lemma DecodeEncode(s: string)
    ensures Decode(Encode(s)) == if s != [] && s[0] == ByteOrderMark then s[1..] else s
  {
    EncodeStartsWithBom(s);
    if s != [] && s[0] == ByteOrderMark {
      assert Encode(s) == EncodeChar(s[0]) + Encode(s[1..]);
      assert EncodeChar(s[0]) == [0xEF, 0xBB, 0xBF];
      assert Encode(s)[3..] == Encode(s[1..]);
      DecodeBodyEncode(s[1..]);
    } else {
      DecodeBodyEncode(s);
    }
  }

  lemma EncodeEmpty(s: string)
    ensures (Encode(s) == []) == (s == [])
  {
  }

  /** Each decoded character takes at most four bytes. */
  lemma {:induction false} DecodeBodyLength(b: seq<Byte>)
    ensures |DecodeBody(b)| <= |b| <= 4 * |DecodeBody(b)|
    decreases |b|
  {
    if b != [] {
      DecodeBodyLength(b[DecodeOne(b).1..]);
    }
  }

  lemma DecodeLength(b: seq<Byte>)
    ensures |b| <= 4 * |Decode(b)| + 3
  {
    if StartsWithBom(b) {
      DecodeBodyLength(b[3..]);
    } else {
      DecodeBodyLength(b);
    }
  }
}
