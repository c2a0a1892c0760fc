/** Small facts about strings and byte sequences shared by the other modules:
    prefix and suffix tests as QString::startsWith / endsWith perform them,
    ASCII lower-casing, and the decimal rendering QString::arg gives an integer. */
module Strings {

  datatype Option<T> = None | Some(value: T)

  /** One octet, as QByteArray and the guest's Uint8Array hold it. */
  type Byte = b: int | 0 <= b < 256

  predicate StartsWith<T(==)>(s: seq<T>, p: seq<T>) {
    |p| <= |s| && s[..|p|] == p
  }

  predicate EndsWith<T(==)>(s: seq<T>, t: seq<T>) {
    |t| <= |s| && s[|s| - |t|..] == t
  }

  lemma StartsWithConcat<T>(p: seq<T>, rest: seq<T>)
    ensures StartsWith(p + rest, p) && (p + rest)[|p|..] == rest
  {
    assert (p + rest)[..|p|] == p;
  }

  lemma EndsWithConcat<T>(front: seq<T>, t: seq<T>)
    ensures EndsWith(front + t, t)
  {
    assert (front + t)[|front|..] == t;
  }

  /** The longest prefix of s holding none of the characters in stops. */
  function PrefixUntil(s: string, stops: set<char>): (r: string)
    ensures |r| <= |s| && r == s[..|r|]
    ensures forall i :: 0 <= i < |r| ==> r[i] !in stops
    ensures |r| < |s| ==> s[|r|] in stops
    decreases |s|
  {
    if s == [] || s[0] in stops then [] else [s[0]] + PrefixUntil(s[1..], stops)
  }

  lemma {:induction false} PrefixUntilStopsAt(h: string, tail: string, stops: set<char>)
    requires forall i :: 0 <= i < |h| ==> h[i] !in stops
    requires tail == [] || tail[0] in stops
    ensures PrefixUntil(h + tail, stops) == h
    decreases |h|
  {
    if h == [] {
      assert h + tail == tail;
    } else {
      assert (h + tail)[0] == h[0] && (h + tail)[1..] == h[1..] + tail;
      PrefixUntilStopsAt(h[1..], tail, stops);
    }
  }

  /** What follows the last occurrence of c in s, or all of s without one. */
  function AfterLast(s: string, c: char): (r: string)
    ensures |r| <= |s| && r == s[|s| - |r|..]
    ensures forall i :: 0 <= i < |r| ==> r[i] != c
    ensures |r| < |s| ==> s[|s| - |r| - 1] == c
    decreases |s|
  {
    if s == [] then []
    else if s[|s| - 1] == c then []
    else AfterLast(s[..|s| - 1], c) + [s[|s| - 1]]
  }

  /** Without c in s, everything of s follows its (absent) last c. */
  lemma {:induction false} AfterLastAbsent(s: string, c: char)
    requires forall i :: 0 <= i < |s| ==> s[i] != c
    ensures AfterLast(s, c) == s
    decreases |s|
  {
    if s != [] {
      AfterLastAbsent(s[..|s| - 1], c);
    }
  }

  /** Lower-cases one ASCII letter and leaves every other character alone. */
  function LowerChar(c: char): char {
    if 'A' <= c <= 'Z' then (c as int + 32) as char else c
  }

  /** QString::toLower restricted to ASCII: A-Z become a-z. The result has
      no upper-case ASCII letter, only upper-case ASCII letters change, and
      text without one is left as it is. */
  function ToLowerAscii(s: string): (r: string)
    ensures |r| == |s|
    ensures IsLowerAscii(r)
    ensures forall i :: 0 <= i < |s| && !('A' <= s[i] <= 'Z') ==> r[i] == s[i]
    ensures IsLowerAscii(s) ==> r == s
  {
    seq(|s|, i requires 0 <= i < |s| => LowerChar(s[i]))
  }

  lemma ToLowerAsciiConcat(a: string, b: string)
    ensures ToLowerAscii(a + b) == ToLowerAscii(a) + ToLowerAscii(b)
  {
    assert forall i :: 0 <= i < |a + b| ==>
      ToLowerAscii(a + b)[i] == (ToLowerAscii(a) + ToLowerAscii(b))[i];
  }

  lemma ToLowerAsciiSlice(s: string, k: nat)
    requires k <= |s|
    ensures ToLowerAscii(s)[k..] == ToLowerAscii(s[k..])
  {
  }

  predicate IsLowerAscii(s: string) {
    forall i :: 0 <= i < |s| ==> !('A' <= s[i] <= 'Z')
  }

  lemma ToLowerAsciiFixes(s: string)
    requires IsLowerAscii(s)
    ensures ToLowerAscii(s) == s
  {
  }

  /** Lowering twice is lowering once. */
  lemma ToLowerAsciiIdempotent(s: string)
    ensures ToLowerAscii(ToLowerAscii(s)) == ToLowerAscii(s)
  {
    ToLowerAsciiFixes(ToLowerAscii(s));
  }

  predicate IsDigit(c: char) {
    '0' <= c <= '9'
  }

  /** Decimal digits of a natural number, most significant first, no leading zeros. */
  function NatDigits(n: nat): (r: string)
    ensures |r| >= 1
    ensures forall i :: 0 <= i < |r| ==> IsDigit(r[i])
    decreases n
  {
    if n < 10 then [('0' as int + n) as char]
    else NatDigits(n / 10) + [('0' as int + n % 10) as char]
  }

  /** The decimal rendering QString::arg gives a signed integer. */
  function Decimal(n: int): string {
    if n < 0 then "-" + NatDigits(-n) else NatDigits(n)
  }

  lemma {:induction false} NatDigitsInjective(a: nat, b: nat)
    requires NatDigits(a) == NatDigits(b)
    ensures a == b
    decreases a
  {
    var da, db := NatDigits(a), NatDigits(b);
    if a >= 10 && b >= 10 {
      var pa, pb := NatDigits(a / 10), NatDigits(b / 10);
      assert da == pa + [('0' as int + a % 10) as char];
      assert db == pb + [('0' as int + b % 10) as char];
      assert |pa| == |pb|;
      assert pa == da[..|da| - 1] == db[..|db| - 1] == pb;
      assert da[|da| - 1] == db[|db| - 1];
      NatDigitsInjective(a / 10, b / 10);
    }
  }

  /** QString::replace(pat, rep): every occurrence of pat, from left to right
      and without overlaps, replaced by rep. */
  function ReplaceAll(s: string, pat: string, rep: string): string
    requires pat != []
    decreases |s|
  {
    if |s| < |pat| then s
    else if s[..|pat|] == pat then rep + ReplaceAll(s[|pat|..], pat, rep)
    else [s[0]] + ReplaceAll(s[1..], pat, rep)
  }

  /** Text in which no occurrence of pat starts passes through the replacement unchanged. */
  lemma {:induction false} ReplaceSkips(pre: string, rest: string, pat: string, rep: string)
    requires pat != []
    requires forall i :: 0 <= i < |pre| ==> !StartsWith((pre + rest)[i..], pat)
    ensures ReplaceAll(pre + rest, pat, rep) == pre + ReplaceAll(rest, pat, rep)
    decreases |pre|
  {
    var s := pre + rest;
    if pre == [] {
      assert s == rest;
    } else {
      assert s[0..] == s;
      if |s| < |pat| {
        ReplaceShort(rest, pat, rep);
      } else {
        assert s[1..] == pre[1..] + rest;
        forall i | 0 <= i < |pre[1..]|
          ensures !StartsWith((pre[1..] + rest)[i..], pat)
        {
          assert (pre[1..] + rest)[i..] == s[i + 1..];
        }
        ReplaceSkips(pre[1..], rest, pat, rep);
      }
    }
  }

  lemma ReplaceShort(s: string, pat: string, rep: string)
    requires pat != [] && |s| < |pat|
    ensures ReplaceAll(s, pat, rep) == s
  {
  }

  /** A text holding pat exactly once is the text with that one occurrence replaced. */
  lemma ReplaceSingle(pre: string, post: string, pat: string, rep: string)
    requires pat != []
    requires forall i :: 0 <= i < |pre| ==> !StartsWith((pre + pat + post)[i..], pat)
    requires forall i :: 0 <= i < |post| ==> !StartsWith(post[i..], pat)
    ensures ReplaceAll(pre + pat + post, pat, rep) == pre + rep + post
  {
    assert pre + pat + post == pre + (pat + post);
    ReplaceSkips(pre, pat + post, pat, rep);
    StartsWithConcat(pat, post);
    assert post + [] == post;
    ReplaceSkips(post, [], pat, rep);
  }
}
