/** How a value is read from front to back: what each kind of text at its front expands to, in characters. */
module EnvReading {
  import opened Results
  import opened Bytes
  import opened EnvExpansion
  import opened EnvLaws

  predicate Is(b: byte, c: char) {
    b as int == c as int
  }

  // A byte that a name can begin with, and one that it can go on with.
  predicate Begins(b: byte) {
    Is(b, '_') || 'A' as int <= b as int <= 'Z' as int || 'a' as int <= b as int <= 'z' as int
  }

  predicate GoesOn(b: byte) {
    Begins(b) || '0' as int <= b as int <= '9' as int
  }

  lemma NameBytes(b: byte)
    ensures IsNameStart(b) <==> Begins(b)
    ensures IsNameContinue(b) <==> GoesOn(b)
  {
  }

  // `${name}` in front of `rest`.
  predicate IsBraced(s: bytes, name: bytes, rest: bytes) {
    && |s| == |name| + 3 + |rest|
    && Is(s[0], '$') && Is(s[1], '{') && Is(s[|name| + 2], '}')
    && s[2..|name| + 2] == name && s[|name| + 3..] == rest
    && forall i :: 0 <= i < |name| ==> !Is(name[i], '}')
  }

  // `$name` in front of `rest`, which the name does not run on into.
  predicate IsBare(s: bytes, name: bytes, rest: bytes) {
    && |s| == |name| + 1 + |rest|
    && Is(s[0], '$') && s[1..|name| + 1] == name && s[|name| + 1..] == rest
    && name != [] && Begins(name[0]) && (forall i :: 0 <= i < |name| ==> GoesOn(name[i]))
    && (rest != [] ==> !GoesOn(rest[0]))
  }

  // A front byte that begins no reference: another one than a dollar, or a dollar at the end, in front
  // of something that is neither a brace nor the beginning of a name, or in front of an unclosed brace.
  predicate IsPlain(s: bytes) {
    s != [] &&
    (Is(s[0], '$') && |s| > 1 ==>
      && !Begins(s[1])
      && (Is(s[1], '{') ==> forall i :: 2 <= i < |s| ==> !Is(s[i], '}')))
  }

  // A byte of 128 and more is read as the character of that number, which takes two bytes.
  function Utf8(b: byte): bytes {
    if b < 128 then [b] else if b < 192 then [194, b] else [195, b - 64]
  }

  // What a name stands for: the process environment goes first, the file second, and neither means nothing.
  function Stands(name: bytes, env: Env, depth: nat, cap: nat): bytes {
    if name in env.process then Expanded(env.process[name], env, depth + 1, cap)
    else if name in env.file then Expanded(env.file[name], env, depth + 1, cap)
    else []
  }

  lemma ReferenceStands(name: bytes, env: Env, depth: nat, cap: nat)
    requires depth <= cap
    ensures TokenValue(Ref(name), env, depth, cap) == Stands(name, env, depth, cap)
  {
    hide Expanded;
  }

  lemma Utf8Is(b: byte)
    ensures AsChar(b) == Utf8(b)
  {
    assert b >= 192 ==> b as int / 64 == 3;
    assert 128 <= b < 192 ==> b as int / 64 == 2;
  }

  lemma FrontIs(s: bytes, env: Env, depth: nat, cap: nat, x: Lexeme, rest: bytes)
    requires depth <= cap && s != [] && FirstToken(s) == x && s[x.len..] == rest
    ensures Expanded(s, env, depth, cap) == TokenValue(x.token, env, depth, cap) + Expanded(rest, env, depth, cap)
  {
    hide FirstToken, TokenValue, TokensValue, Tokens;
    FrontToken(s, env, depth, cap);
  }

  lemma BracedReads(s: bytes, name: bytes, rest: bytes, env: Env, depth: nat, cap: nat)
    requires depth <= cap && IsBraced(s, name, rest)
    ensures Expanded(s, env, depth, cap) == Stands(name, env, depth, cap) + Expanded(rest, env, depth, cap)
  {
    hide FirstToken, Expanded, TokenValue, Stands;
    BracedAt(s, 0, |name| + 2);
    assert s[0..] == s;
    FrontIs(s, env, depth, cap, Lexeme(Ref(name), |name| + 3), rest);
    ReferenceStands(name, env, depth, cap);
  }

  lemma BareReads(s: bytes, name: bytes, rest: bytes, env: Env, depth: nat, cap: nat)
    requires depth <= cap && IsBare(s, name, rest)
    ensures Expanded(s, env, depth, cap) == Stands(name, env, depth, cap) + Expanded(rest, env, depth, cap)
  {
    hide FirstToken, Expanded, TokenValue, Stands;
    forall i | 0 <= i < |s| ensures IsNameContinue(s[i]) <==> GoesOn(s[i]) {
      NameBytes(s[i]);
    }
    NameBytes(s[1]);
    assert forall i :: 2 <= i < |name| + 1 ==> s[i] == name[i - 1];
    assert rest != [] ==> rest[0] == s[|name| + 1];
    BareAt(s, 0, |name| + 1);
    assert s[0..] == s;
    FrontIs(s, env, depth, cap, Lexeme(Ref(name), |name| + 1), rest);
    ReferenceStands(name, env, depth, cap);
  }

  lemma PlainReads(s: bytes, env: Env, depth: nat, cap: nat)
    requires depth <= cap && IsPlain(s)
    ensures Expanded(s, env, depth, cap) == Utf8(s[0]) + Expanded(s[1..], env, depth, cap)
  {
    hide FirstToken, Expanded, AsChar;
    assert s[0..] == s;
    if Is(s[0], '$') && |s| > 1 && Is(s[1], '{') {
      BracedAt(s, 0, |s|);
    } else {
      if |s| > 1 {
        NameBytes(s[1]);
      }
      PlainAt(s, 0);
    }
    FrontIs(s, env, depth, cap, Lexeme(Lit(s[0]), 1), s[1..]);
    Utf8Is(s[0]);
  }

  // The loader's expansion, read from the front: nine levels are expanded, and deeper values stay as they
  // are written.
  lemma ReadFromTheFront(s: bytes, env: Env, depth: nat)
    ensures depth >= 9 ==> Expanded(s, env, depth, MAX_DEPTH) == s
    ensures depth <= 8 && s == [] ==> Expanded(s, env, depth, MAX_DEPTH) == []
    ensures depth <= 8 && IsPlain(s) ==>
              Expanded(s, env, depth, MAX_DEPTH) == Utf8(s[0]) + Expanded(s[1..], env, depth, MAX_DEPTH)
    ensures forall name, rest :: depth <= 8 && (IsBraced(s, name, rest) || IsBare(s, name, rest)) ==>
              Expanded(s, env, depth, MAX_DEPTH) ==
              Stands(name, env, depth, MAX_DEPTH) + Expanded(rest, env, depth, MAX_DEPTH)
  {
    hide Stands, IsPlain, IsBraced, IsBare;
    if depth <= 8 {
      if s == [] {
        NoTokens(env, depth, MAX_DEPTH);
      }
      if IsPlain(s) {
        PlainReads(s, env, depth, MAX_DEPTH);
      }
      forall name, rest | IsBraced(s, name, rest) || IsBare(s, name, rest)
        ensures Expanded(s, env, depth, MAX_DEPTH) ==
                Stands(name, env, depth, MAX_DEPTH) + Expanded(rest, env, depth, MAX_DEPTH)
      {
        if IsBraced(s, name, rest) {
          BracedReads(s, name, rest, env, depth, MAX_DEPTH);
        } else {
          BareReads(s, name, rest, env, depth, MAX_DEPTH);
        }
      }
    }
  }

  lemma OneFront(s: bytes, n1: bytes, r1: bytes, n2: bytes, r2: bytes)
    requires IsBraced(s, n1, r1) || IsBare(s, n1, r1)
    requires IsBraced(s, n2, r2) || IsBare(s, n2, r2)
    ensures n1 == n2 && r1 == r2
  {
    SameLength(s, n1, r1, n2, r2);
    SameLength(s, n2, r2, n1, r1);
  }

  lemma SameLength(s: bytes, n1: bytes, r1: bytes, n2: bytes, r2: bytes)
    requires IsBraced(s, n1, r1) || IsBare(s, n1, r1)
    requires IsBraced(s, n2, r2) || IsBare(s, n2, r2)
    ensures |n1| >= |n2| && (IsBraced(s, n1, r1) <==> IsBraced(s, n2, r2))
  {
    assert IsBare(s, n1, r1) ==> s[1] == n1[0];
    assert IsBare(s, n2, r2) ==> s[1] == n2[0];
  }

  // The first closing brace of a text, or the end of its name, is where the source looks for it.
  lemma {:induction false} CloseAtFirst(s: bytes)
    ensures var k := CloseAt(s);
            (forall i :: 0 <= i < k ==> !Is(s[i], '}')) && (k < |s| ==> Is(s[k], '}'))
  {
    if s != [] && s[0] != CLOSE {
      CloseAtFirst(s[1..]);
      assert forall i :: 0 < i < |s| ==> s[i] == s[1..][i - 1];
    }
  }

  lemma {:induction false} NameLenLongest(s: bytes)
    ensures var n := NameLen(s);
            (forall i :: 0 <= i < n ==> GoesOn(s[i])) && (n < |s| ==> !GoesOn(s[n]))
  {
    if s != [] {
      NameBytes(s[0]);
      if GoesOn(s[0]) {
        NameLenLongest(s[1..]);
        assert forall i :: 0 < i < |s| ==> s[i] == s[1..][i - 1];
      }
    }
  }

  lemma BracedFirst(s: bytes)
    requires s != [] && !IsPlain(s) && Is(s[1], '{')
    ensures var k := CloseAt(s[2..]);
            k + 3 <= |s| && IsBraced(s, s[2..2 + k], s[k + 3..])
  {
    CloseAtFirst(s[2..]);
  }

  lemma BareFirst(s: bytes)
    requires s != [] && !IsPlain(s) && !Is(s[1], '{')
    ensures var n := NameLen(s[2..]);
            IsBare(s, s[1..2 + n], s[2 + n..])
  {
    var n := NameLen(s[2..]);
    NameLenLongest(s[2..]);
    var name := s[1..2 + n];
    assert forall i :: 0 < i < |name| ==> name[i] == s[2..][i - 1];
  }

  lemma PlainOnly(s: bytes, name: bytes, rest: bytes)
    requires IsPlain(s)
    ensures !IsBraced(s, name, rest) && !IsBare(s, name, rest)
  {
  }

  // Every text begins in exactly one of these ways.
  lemma FrontsAreComplete(s: bytes)
    requires s != []
    ensures IsPlain(s) <==> !exists name, rest :: IsBraced(s, name, rest) || IsBare(s, name, rest)
    ensures forall n1, r1, n2, r2 ::
              (IsBraced(s, n1, r1) || IsBare(s, n1, r1)) && (IsBraced(s, n2, r2) || IsBare(s, n2, r2)) ==>
              n1 == n2 && r1 == r2
  {
    hide IsBraced, IsBare, CloseAt, NameLen;
    forall n1, r1, n2, r2 | (IsBraced(s, n1, r1) || IsBare(s, n1, r1)) && (IsBraced(s, n2, r2) || IsBare(s, n2, r2))
      ensures n1 == n2 && r1 == r2
    {
      OneFront(s, n1, r1, n2, r2);
    }
    if IsPlain(s) {
      forall name, rest ensures !IsBraced(s, name, rest) && !IsBare(s, name, rest) {
        PlainOnly(s, name, rest);
      }
    } else if Is(s[1], '{') {
      BracedFirst(s);
    } else {
      BareFirst(s);
    }
  }
}
