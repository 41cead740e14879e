/** Byte strings. A Rust `&str` is a byte string that satisfies ValidUtf8. */
module Bytes {
  import opened Results

  newtype byte = x: int | 0 <= x < 256

  type bytes = seq<byte>

  const CR: byte := 13
  const LF: byte := 10
  const SPACE: byte := 32
  const QUOTE: byte := 34
  const COLON: byte := 58
  const SEMICOLON: byte := 59

  predicate IsAscii(s: string) {
    forall i :: 0 <= i < |s| ==> s[i] as int < 128
  }

  // The bytes of an ASCII literal.
  function Ascii(s: string): (b: bytes)
    requires IsAscii(s)
    ensures |b| == |s|
    ensures forall i :: 0 <= i < |s| ==> b[i] as int == s[i] as int
  {
    seq(|s|, i requires 0 <= i < |s| => s[i] as int as byte)
  }

  predicate Lacks(s: bytes, c: byte) {
    c !in s
  }

  // ----- Searching.

  predicate At(hay: bytes, needle: bytes, k: int) {
    0 <= k && k + |needle| <= |hay| && hay[k..k + |needle|] == needle
  }

  predicate StartsWith(s: bytes, prefix: bytes) {
    |prefix| <= |s| && s[..|prefix|] == prefix
  }

  predicate EndsWith(s: bytes, suffix: bytes) {
    |suffix| <= |s| && s[|s| - |suffix|..] == suffix
  }

  ghost predicate Occurs(hay: bytes, needle: bytes) {
    exists k :: At(hay, needle, k)
  }

  // The first window of `hay` equal to `needle`; `windows(0)` panics, hence the precondition.
  function FindBytes(hay: bytes, needle: bytes): (r: Option<nat>)
    requires needle != []
    ensures r.Some? ==> r.value + |needle| <= |hay|
    ensures r.Some? ==> At(hay, needle, r.value) && forall k :: 0 <= k < r.value ==> !At(hay, needle, k)
    ensures r.None? ==> forall k :: !At(hay, needle, k)
  {
    if |hay| < |needle| then None
    else if hay[..|needle|] == needle then Some(0)
    else
      var rest := FindBytes(hay[1..], needle);
      assert forall k :: k > 0 && At(hay, needle, k) ==> At(hay[1..], needle, k - 1) by {
        forall k | k > 0 && At(hay, needle, k) ensures At(hay[1..], needle, k - 1) {
          assert hay[1..][k - 1..k - 1 + |needle|] == hay[k..k + |needle|];
        }
      }
      match rest
      case None => None
      case Some(i) =>
        assert hay[1..][i..i + |needle|] == hay[i + 1..i + 1 + |needle|];
        Some(i + 1)
  }

  lemma FindBytesIs(hay: bytes, needle: bytes, k: nat)
    requires needle != []
    requires At(hay, needle, k) && forall j :: 0 <= j < k ==> !At(hay, needle, j)
    ensures FindBytes(hay, needle) == Some(k)
  {
  }

  function SplitOnce(s: bytes, delimiter: bytes): (r: Option<(bytes, bytes)>)
    requires delimiter != []
    ensures r.Some? ==> s == r.value.0 + delimiter + r.value.1 && !Occurs(r.value.0, delimiter)
    ensures r.None? ==> !Occurs(s, delimiter)
  {
    match FindBytes(s, delimiter)
    case None => None
    case Some(i) =>
      assert !Occurs(s[..i], delimiter) by {
        forall k | At(s[..i], delimiter, k) ensures false {
          assert s[..i][k..k + |delimiter|] == s[k..k + |delimiter|];
          assert At(s, delimiter, k);
        }
      }
      Some((s[..i], s[i + |delimiter|..]))
  }

  // `str::split`
  function Split(s: bytes, separator: bytes): (r: seq<bytes>)
    requires separator != []
    ensures r != []
    decreases |s|
  {
    match SplitOnce(s, separator)
    case None => [s]
    case Some((front, rest)) => [front] + Split(rest, separator)
  }

  // An occurrence of a needle that lacks c cannot lie across a c.
  lemma NotAcross(a: bytes, c: byte, b: bytes, needle: bytes, k: int)
    requires Lacks(needle, c) && At(a + [c] + b, needle, k)
    ensures (k + |needle| <= |a| && At(a, needle, k)) || (k > |a| && At(b, needle, k - |a| - 1))
  {
    var s := a + [c] + b;
    assert forall i :: 0 <= i < |needle| ==> needle[i] == s[k + i];
    assert forall i :: 0 <= i < |needle| ==> needle[i] in needle;
    assert !(k <= |a| < k + |needle|) by {
      assert s[|a|] == c;
    }
    if k > |a| {
      assert b[k - |a| - 1..k - |a| - 1 + |needle|] == s[k..k + |needle|];
    } else {
      assert a[k..k + |needle|] == s[k..k + |needle|];
    }
  }

  lemma AbsentAcross(a: bytes, c: byte, b: bytes, needle: bytes)
    requires Lacks(needle, c) && !Occurs(a, needle) && !Occurs(b, needle)
    ensures !Occurs(a + [c] + b, needle)
  {
    if Occurs(a + [c] + b, needle) {
      var k :| At(a + [c] + b, needle, k);
      NotAcross(a, c, b, needle, k);
    }
  }

  // ----- UTF-8, section 4 of RFC 3629.

  predicate Continuation(b: byte) {
    0x80 <= b <= 0xBF
  }

  // Length of the well-formed sequence at the front of s, or zero.
  function SequenceLen(s: bytes): (n: nat)
    ensures n <= |s|
  {
    if s == [] then 0
    else if s[0] < 0x80 then 1
    else if 0xC2 <= s[0] <= 0xDF && |s| >= 2 && Continuation(s[1]) then 2
    else if |s| >= 3 && Continuation(s[1]) && Continuation(s[2]) &&
         ((s[0] == 0xE0 && s[1] >= 0xA0) || 0xE1 <= s[0] <= 0xEC || (s[0] == 0xED && s[1] <= 0x9F)
             || 0xEE <= s[0] <= 0xEF)
    then 3
    else if |s| >= 4 && Continuation(s[1]) && Continuation(s[2]) && Continuation(s[3]) &&
         ((s[0] == 0xF0 && s[1] >= 0x90) || 0xF1 <= s[0] <= 0xF3 || (s[0] == 0xF4 && s[1] <= 0x8F))
    then 4
    else 0
  }

  predicate ValidUtf8(s: bytes) {
    s == [] || (SequenceLen(s) > 0 && ValidUtf8(s[SequenceLen(s)..]))
  }

  lemma {:induction false} ValidUtf8Concat(a: bytes, b: bytes)
    requires ValidUtf8(a) && ValidUtf8(b)
    ensures ValidUtf8(a + b)
    decreases |a|
  {
    if a == [] {
      assert a + b == b;
    } else {
      var n := SequenceLen(a);
      assert SequenceLen(a + b) == n;
      assert (a + b)[n..] == a[n..] + b;
      ValidUtf8Concat(a[n..], b);
    }
  }

  lemma {:induction false} AsciiIsUtf8(s: bytes)
    requires forall i :: 0 <= i < |s| ==> s[i] < 0x80
    ensures ValidUtf8(s)
  {
    if s != [] {
      AsciiIsUtf8(s[1..]);
    }
  }

  // ----- Trimming Unicode whitespace in UTF-8 text.

  // Length of the whitespace character at the front of s, or zero.
  function WhitespaceLen(s: bytes): (n: nat)
    ensures n <= |s|
  {
    if s == [] then 0
    else if 9 <= s[0] <= 13 || s[0] == SPACE then 1
    else if |s| >= 2 && s[0] == 0xC2 && (s[1] == 0x85 || s[1] == 0xA0) then 2
    else if |s| >= 3 && s[0] == 0xE1 && s[1] == 0x9A && s[2] == 0x80 then 3
    else if |s| >= 3 && s[0] == 0xE2 && s[1] == 0x80 &&
            (0x80 <= s[2] <= 0x8A || s[2] == 0xA8 || s[2] == 0xA9 || s[2] == 0xAF) then 3
    else if |s| >= 3 && s[0] == 0xE2 && s[1] == 0x81 && s[2] == 0x9F then 3
    else if |s| >= 3 && s[0] == 0xE3 && s[1] == 0x80 && s[2] == 0x80 then 3
    else 0
  }

  // Length of the whitespace character at the end of s, or zero.
  function WhitespaceTail(s: bytes): (n: nat)
    ensures n <= |s|
  {
    if |s| >= 1 && WhitespaceLen(s[|s| - 1..]) == 1 then 1
    else if |s| >= 2 && WhitespaceLen(s[|s| - 2..]) == 2 then 2
    else if |s| >= 3 && WhitespaceLen(s[|s| - 3..]) == 3 then 3
    else 0
  }

  function TrimStart(s: bytes): bytes {
    if WhitespaceLen(s) > 0 then TrimStart(s[WhitespaceLen(s)..]) else s
  }

  function TrimEnd(s: bytes): bytes {
    if WhitespaceTail(s) > 0 then TrimEnd(s[..|s| - WhitespaceTail(s)]) else s
  }

  // `str::trim`
  function Trim(s: bytes): bytes {
    TrimEnd(TrimStart(s))
  }

  lemma TrimAfterSpace(s: bytes)
    ensures Trim([SPACE] + s) == Trim(s)
  {
    assert ([SPACE] + s)[1..] == s;
  }

  // Text between two visible ASCII characters is trimmed.
  lemma VisibleEnds(s: bytes)
    requires s != [] && 32 < s[0] < 0x80 && 32 < s[|s| - 1] < 0x80
    ensures Trim(s) == s
  {
  }

  // `str::trim_matches` for the quote character.
  function UnquoteStart(s: bytes): bytes {
    if s != [] && s[0] == QUOTE then UnquoteStart(s[1..]) else s
  }

  function UnquoteEnd(s: bytes): bytes {
    if s != [] && s[|s| - 1] == QUOTE then UnquoteEnd(s[..|s| - 1]) else s
  }

  function Unquoted(s: bytes): bytes {
    UnquoteEnd(UnquoteStart(s))
  }

  lemma UnquotedQuoted(s: bytes)
    requires Lacks(s, QUOTE)
    ensures Unquoted([QUOTE] + s + [QUOTE]) == s
  {
    var t := s + [QUOTE];
    assert [QUOTE] + s + [QUOTE] == [QUOTE] + t;
    assert ([QUOTE] + t)[1..] == t;
    if s == [] {
      assert t[1..] == [];
      assert UnquoteStart(t) == [];
    } else {
      assert t[0] == s[0] && s[0] in s;
      assert UnquoteStart(t) == t;
      assert t[..|t| - 1] == s;
      assert s[|s| - 1] in s;
      assert UnquoteEnd(s) == s;
      assert UnquoteStart([QUOTE] + t) == t;
    }
  }

  // `eq_ignore_ascii_case`
  function Lower(b: byte): byte {
    if 65 <= b <= 90 then b + 32 else b
  }

  predicate SameIgnoringCase(a: bytes, b: bytes) {
    |a| == |b| && forall i :: 0 <= i < |a| ==> Lower(a[i]) == Lower(b[i])
  }
}
