/** Base64 as both ends of the clipboard bridge use it.

    The guest side calls the browser's btoa, which produces the padded
    encoding of section 4 of RFC 4648. The host side calls
    QByteArray::fromBase64 with its default options: that decoder never
    fails. It skips every character outside the alphabet (the padding '='
    included), gathers six bits per alphabet character and emits a byte
    whenever eight bits are available, so every four characters give three
    bytes, a trailing two give one, a trailing three give two and a trailing
    single character gives nothing. */
module Base64 {
  import opened Strings

  type Sextet = v: int | 0 <= v < 64

  /** The character of the RFC 4648 alphabet for a six-bit value. */
  function AlphabetChar(v: Sextet): char {
    if v < 26 then ('A' as int + v) as char
    else if v < 52 then ('a' as int + (v - 26)) as char
    else if v < 62 then ('0' as int + (v - 52)) as char
    else if v == 62 then '+'
    else '/'
  }

  predicate InAlphabet(c: char) {
    ('A' <= c <= 'Z') || ('a' <= c <= 'z') || ('0' <= c <= '9') || c == '+' || c == '/'
  }

  function SextetValue(c: char): Sextet
    requires InAlphabet(c)
  {
    if 'A' <= c <= 'Z' then c as int - 'A' as int
    else if 'a' <= c <= 'z' then c as int - 'a' as int + 26
    else if '0' <= c <= '9' then c as int - '0' as int + 52
    else if c == '+' then 62
    else 63
  }

  lemma AlphabetCharDecodes(v: Sextet)
    ensures InAlphabet(AlphabetChar(v)) && SextetValue(AlphabetChar(v)) == v
  {
  }

  /** Padded encoding of section 4 of RFC 4648, as btoa produces it. */
  function Encode(b: seq<Byte>): string
    decreases |b|
  {
    if |b| == 0 then ""
    else if |b| == 1 then
      [AlphabetChar(b[0] / 4), AlphabetChar((b[0] % 4) * 16), '=', '=']
    else if |b| == 2 then
      [AlphabetChar(b[0] / 4), AlphabetChar((b[0] % 4) * 16 + b[1] / 16),
       AlphabetChar((b[1] % 16) * 4), '=']
    else
      [AlphabetChar(b[0] / 4), AlphabetChar((b[0] % 4) * 16 + b[1] / 16),
       AlphabetChar((b[1] % 16) * 4 + b[2] / 64), AlphabetChar(b[2] % 64)]
      + Encode(b[3..])
  }

  /** The six-bit values of the alphabet characters of s, in order; every
      other character is skipped. */
  function Sextets(s: string): seq<Sextet>
    decreases |s|
  {
    if s == [] then []
    else if InAlphabet(s[0]) then [SextetValue(s[0])] + Sextets(s[1..])
    else Sextets(s[1..])
  }

  /** The bytes the decoder's bit accumulator emits for a run of six-bit values. */
  function Pack(q: seq<Sextet>): seq<Byte>
    decreases |q|
  {
    if |q| < 2 then []
    else if |q| == 2 then [q[0] as int * 4 + q[1] / 16]
    else if |q| == 3 then [q[0] as int * 4 + q[1] / 16, (q[1] % 16) as int * 16 + q[2] / 4]
    else
      [q[0] as int * 4 + q[1] / 16, (q[1] % 16) as int * 16 + q[2] / 4,
       (q[2] % 4) as int * 64 + q[3]]
      + Pack(q[4..])
  }

  /** QByteArray::fromBase64 with default options. */
  function Decode(s: string): seq<Byte> {
    Pack(Sextets(s))
  }

  /** QString::toLatin1: characters above U+00FF become '?'. The result is
      Latin-1 text of the same length, and Latin-1 text is left as it is. */
  function ToLatin1(s: string): (r: string)
    ensures |r| == |s|
    ensures forall i :: 0 <= i < |r| ==> r[i] as int <= 0xFF
    ensures forall i :: 0 <= i < |s| && s[i] as int <= 0xFF ==> r[i] == s[i]
    ensures (forall i :: 0 <= i < |s| ==> s[i] as int <= 0xFF) ==> r == s
  {
    seq(|s|, i requires 0 <= i < |s| => if s[i] as int <= 0xFF then s[i] else '?')
  }

  lemma {:induction false} SextetsAppend(a: string, b: string)
    ensures Sextets(a + b) == Sextets(a) + Sextets(b)
    decreases |a|
  {
    if a == [] {
      assert a + b == b;
    } else {
      assert (a + b)[0] == a[0];
      assert (a + b)[1..] == a[1..] + b;
      SextetsAppend(a[1..], b);
    }
  }

  /** Characters that are all in the alphabet contribute one value each; the
      padding after them contributes nothing. */
  lemma {:induction false} SextetsOfAlphabet(a: string, pad: string)
    requires forall i :: 0 <= i < |a| ==> InAlphabet(a[i])
    requires forall i :: 0 <= i < |pad| ==> pad[i] == '='
    ensures |Sextets(a + pad)| == |a|
    ensures forall i :: 0 <= i < |a| ==> Sextets(a + pad)[i] == SextetValue(a[i])
    decreases |a| + |pad|
  {
    if a != [] {
      assert (a + pad)[0] == a[0] && (a + pad)[1..] == a[1..] + pad;
      SextetsOfAlphabet(a[1..], pad);
    } else if pad != [] {
      assert (a + pad)[1..] == a + pad[1..];
      SextetsOfAlphabet(a, pad[1..]);
    }
  }

  /** Every character btoa writes is an ASCII character. */
  lemma {:induction false} EncodeIsAscii(b: seq<Byte>)
    ensures forall i :: 0 <= i < |Encode(b)| ==> Encode(b)[i] as int < 0x80
    decreases |b|
  {
    if |b| >= 3 {
      EncodeIsAscii(b[3..]);
    }
  }

  lemma EncodeEmpty(b: seq<Byte>)
    ensures (Encode(b) == "") == (b == [])
  {
  }

  /** Latin-1 conversion leaves the encoder's output as it is. */
  lemma Latin1OfEncode(b: seq<Byte>)
    ensures ToLatin1(Encode(b)) == Encode(b)
  {
    EncodeIsAscii(b);
  }

  /** The six-bit values btoa writes for the first three bytes of b. */
  function GroupSextets(b0: Byte, b1: Byte, b2: Byte): seq<Sextet> {
    [b0 / 4, (b0 % 4) * 16 + b1 / 16, (b1 % 16) * 4 + b2 / 64, b2 % 64]
  }

  lemma {:induction false} SextetsOfGroup(b: seq<Byte>)
    requires |b| >= 3
    ensures Sextets(Encode(b)) == GroupSextets(b[0], b[1], b[2]) + Sextets(Encode(b[3..]))
  {
    var g := GroupSextets(b[0], b[1], b[2]);
    var head := [AlphabetChar(g[0]), AlphabetChar(g[1]), AlphabetChar(g[2]), AlphabetChar(g[3])];
    assert Encode(b) == head + Encode(b[3..]);
    AlphabetCharDecodes(g[0]); AlphabetCharDecodes(g[1]);
    AlphabetCharDecodes(g[2]); AlphabetCharDecodes(g[3]);
    assert head + "" == head;
    SextetsOfAlphabet(head, "");
    assert Sextets(head) == g;
    SextetsAppend(head, Encode(b[3..]));
  }

  lemma PackOfGroup(b0: Byte, b1: Byte, b2: Byte, rest: seq<Sextet>)
    ensures Pack(GroupSextets(b0, b1, b2) + rest) == [b0, b1, b2] + Pack(rest)
  {
    var q := GroupSextets(b0, b1, b2) + rest;
    assert q[4..] == rest;
    var v1, v2 := (b0 % 4) * 16 + b1 / 16, (b1 % 16) * 4 + b2 / 64;
    assert v1 / 16 == b0 % 4 && v1 % 16 == b1 / 16;
    assert v2 / 4 == b1 % 16 && v2 % 4 == b2 / 64;
  }

  lemma SextetsOfPadded(a: string, pad: string)
    requires forall i :: 0 <= i < |a| ==> InAlphabet(a[i])
    requires forall i :: 0 <= i < |pad| ==> pad[i] == '='
    ensures Sextets(a + pad) == seq(|a|, i requires 0 <= i < |a| => SextetValue(a[i]))
  {
    SextetsOfAlphabet(a, pad);
  }

  lemma DecodeEncodeOne(x: Byte)
    ensures Decode(Encode([x])) == [x]
  {
    var v0: Sextet, v1: Sextet := x / 4, (x % 4) * 16;
    AlphabetCharDecodes(v0); AlphabetCharDecodes(v1);
    var a := [AlphabetChar(v0), AlphabetChar(v1)];
    assert Encode([x]) == a + "==";
    SextetsOfPadded(a, "==");
    assert Sextets(Encode([x])) == [v0, v1];
    assert v1 / 16 == x % 4;
    assert Pack([v0, v1]) == [x];
  }

  lemma PackTwo(x: Byte, y: Byte, v0: Sextet, v1: Sextet, v2: Sextet)
    requires v0 == x / 4 && v1 == (x % 4) * 16 + y / 16 && v2 == (y % 16) * 4
    ensures Pack([v0, v1, v2]) == [x, y]
  {
    assert v1 / 16 == x % 4 && v1 % 16 == y / 16 && v2 / 4 == y % 16;
  }

  lemma DecodeEncodeTwo(x: Byte, y: Byte)
    ensures Decode(Encode([x, y])) == [x, y]
  {
    var v0: Sextet, v1: Sextet, v2: Sextet := x / 4, (x % 4) * 16 + y / 16, (y % 16) * 4;
    AlphabetCharDecodes(v0); AlphabetCharDecodes(v1); AlphabetCharDecodes(v2);
    var a := [AlphabetChar(v0), AlphabetChar(v1), AlphabetChar(v2)];
    assert Encode([x, y]) == a + "=";
    SextetsOfPadded(a, "=");
    assert Sextets(Encode([x, y])) == [v0, v1, v2];
    PackTwo(x, y, v0, v1, v2);
  }

  /** Round trip: the host's decoder gives back exactly the bytes the guest encoded. */
  lemma {:induction false} DecodeEncode(b: seq<Byte>)
    ensures Decode(Encode(b)) == b
    decreases |b|
  {
    if |b| == 1 {
      assert b == [b[0]];
      DecodeEncodeOne(b[0]);
    } else if |b| == 2 {
      assert b == [b[0], b[1]];
      DecodeEncodeTwo(b[0], b[1]);
    } else if |b| >= 3 {
      SextetsOfGroup(b);
      PackOfGroup(b[0], b[1], b[2], Sextets(Encode(b[3..])));
      DecodeEncode(b[3..]);
      assert [b[0], b[1], b[2]] + b[3..] == b;
    }
  }

  /** Each four characters btoa writes decode to three bytes: the decoded size
      grows with the encoded size, so a large encoded text is a large payload. */
  lemma {:induction false} EncodeLength(b: seq<Byte>)
    ensures |Encode(b)| == 4 * ((|b| + 2) / 3)
    decreases |b|
  {
    if |b| >= 3 {
      EncodeLength(b[3..]);
      assert |Encode(b)| == 4 + |Encode(b[3..])|;
      assert (|b| + 2) / 3 == 1 + (|b[3..]| + 2) / 3;
    }
  }

  /** The decoder emits one byte per eight bits gathered: n alphabet characters
      give floor(6n / 8) bytes. */
  lemma {:induction false} PackLength(q: seq<Sextet>)
    ensures |Pack(q)| == (6 * |q|) / 8
    decreases |q|
  {
    if |q| >= 4 {
      PackLength(q[4..]);
    }
  }

  /** A run of values whose length is a multiple of four leaves the bit
      accumulator empty, so what follows decodes on its own. */
  lemma {:induction false} PackAppend(a: seq<Sextet>, b: seq<Sextet>)
    requires |a| % 4 == 0
    ensures Pack(a + b) == Pack(a) + Pack(b)
    decreases |a|
  {
    if a == [] {
      assert a + b == b;
    } else {
      assert (a + b)[..4] == a[..4];
      assert (a + b)[4..] == a[4..] + b;
      PackAppend(a[4..], b);
    }
  }
}
