/** Text operations of the Rust standard library that the CLI rewriter relies on. */
module Text {
  import opened Results

  // `char::is_whitespace`: the Unicode White_Space property.
  predicate IsWhitespace(c: char) {
    var n := c as int;
    || 9 <= n <= 13 || n == 0x20 || n == 0x85 || n == 0xA0 || n == 0x1680
    || 0x2000 <= n <= 0x200A || n == 0x2028 || n == 0x2029 || n == 0x202F
    || n == 0x205F || n == 0x3000
  }

  predicate AllWhitespace(s: string) {
    forall i :: 0 <= i < |s| ==> IsWhitespace(s[i])
  }

  function TrimStart(s: string): string {
    if s != "" && IsWhitespace(s[0]) then TrimStart(s[1..]) else s
  }

  function TrimEnd(s: string): string {
    if s != "" && IsWhitespace(s[|s| - 1]) then TrimEnd(s[..|s| - 1]) else s
  }

  // `str::trim`
  function Trim(s: string): string {
    TrimEnd(TrimStart(s))
  }

  predicate Trimmed(s: string) {
    s != "" ==> !IsWhitespace(s[0]) && !IsWhitespace(s[|s| - 1])
  }

  lemma {:induction false} TrimStartCuts(s: string)
    ensures |TrimStart(s)| <= |s|
    ensures TrimStart(s) == s[|s| - |TrimStart(s)|..]
    ensures AllWhitespace(s[..|s| - |TrimStart(s)|])
    ensures TrimStart(s) != "" ==> !IsWhitespace(TrimStart(s)[0])
  {
    if s != "" && IsWhitespace(s[0]) {
      TrimStartCuts(s[1..]);
      var k := |s| - |TrimStart(s)|;
      assert s[1..][..k - 1] == s[1..k];
      forall i | 0 <= i < k ensures IsWhitespace(s[..k][i]) {
        if i > 0 { assert s[1..k][i - 1] == s[i]; }
      }
    }
  }

  lemma {:induction false} TrimEndCuts(s: string)
    ensures |TrimEnd(s)| <= |s|
    ensures TrimEnd(s) == s[..|TrimEnd(s)|]
    ensures AllWhitespace(s[|TrimEnd(s)|..])
    ensures TrimEnd(s) != "" ==> !IsWhitespace(TrimEnd(s)[|TrimEnd(s)| - 1])
  {
    if s != "" && IsWhitespace(s[|s| - 1]) {
      TrimEndCuts(s[..|s| - 1]);
      var k := |TrimEnd(s)|;
      assert s[..|s| - 1][k..] == s[k..|s| - 1];
      forall i | 0 <= i < |s[k..]| ensures IsWhitespace(s[k..][i]) {
        if i < |s| - 1 - k { assert s[k..|s| - 1][i] == s[k..][i]; }
      }
    }
  }

  // Trimming removes whitespace at both ends and nothing else.
  lemma TrimSplits(s: string) returns (left: string, right: string)
    ensures s == left + Trim(s) + right
    ensures AllWhitespace(left) && AllWhitespace(right)
    ensures Trimmed(Trim(s))
  {
    hide TrimStart, TrimEnd;
    var t := TrimStart(s);
    TrimStartCuts(s);
    TrimEndCuts(t);
    left, right := s[..|s| - |t|], t[|TrimEnd(t)|..];
    assert s == left + t;
    assert t == TrimEnd(t) + right;
  }

  lemma {:induction false} TrimStartPad(pad: string, s: string)
    requires AllWhitespace(pad)
    ensures TrimStart(pad + s) == TrimStart(s)
  {
    if pad == "" {
      assert pad + s == s;
    } else {
      assert (pad + s)[1..] == pad[1..] + s;
      TrimStartPad(pad[1..], s);
    }
  }

  lemma {:induction false} TrimEndPad(s: string, pad: string)
    requires AllWhitespace(pad)
    ensures TrimEnd(s + pad) == TrimEnd(s)
  {
    if pad == "" {
      assert s + pad == s;
    } else {
      var m := |pad| - 1;
      assert (s + pad)[..|s + pad| - 1] == s + pad[..m];
      TrimEndPad(s, pad[..m]);
    }
  }

  // Trimmed text survives padding.
  lemma TrimPadded(left: string, s: string, right: string)
    requires AllWhitespace(left) && AllWhitespace(right) && Trimmed(s)
    ensures Trim(left + s + right) == s
  {
    assert left + s + right == left + (s + right);
    TrimStartPad(left, s + right);
    if s == "" {
      assert s + right == right + "";
      TrimStartPad(right, "");
    } else {
      TrimEndPad(s, right);
    }
  }

  lemma Slices(s: string, a: nat, b: nat)
    requires a <= b <= |s|
    ensures s[a..][b - a..] == s[b..]
    ensures s[a..][..b - a] == s[a..b]
  {
  }

  // `needle` occurs in `hay` at position k.
  predicate OccursAt(hay: string, needle: string, k: int) {
    0 <= k && k + |needle| <= |hay| && hay[k..k + |needle|] == needle
  }

  // `str::contains`
  predicate Contains(hay: string, needle: string) {
    exists k :: 0 <= k <= |hay| && OccursAt(hay, needle, k)
  }

  // `str::find`: the first occurrence.
  function Find(hay: string, needle: string): (r: Option<nat>)
    ensures r.None? ==> forall k :: !OccursAt(hay, needle, k)
    ensures r.Some? ==> OccursAt(hay, needle, r.value) && forall k :: 0 <= k < r.value ==> !OccursAt(hay, needle, k)
  {
    FindFrom(hay, needle, 0)
  }

  function FindFrom(hay: string, needle: string, from: nat): (r: Option<nat>)
    requires from <= |hay|
    requires forall k :: 0 <= k < from ==> !OccursAt(hay, needle, k)
    ensures r.None? ==> forall k :: !OccursAt(hay, needle, k)
    ensures r.Some? ==> OccursAt(hay, needle, r.value) && forall k :: 0 <= k < r.value ==> !OccursAt(hay, needle, k)
    decreases |hay| - from
  {
    if OccursAt(hay, needle, from) then Some(from)
    else if from == |hay| then None
    else FindFrom(hay, needle, from + 1)
  }

  lemma FindIs(hay: string, needle: string, r: nat)
    requires OccursAt(hay, needle, r) && forall k :: 0 <= k < r ==> !OccursAt(hay, needle, k)
    ensures Find(hay, needle) == Some(r)
  {
  }
}
