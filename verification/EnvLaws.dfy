/** What expansion means: templates, reference chains, and the depth cap. */
module EnvLaws {
  import opened Results
  import opened Bytes
  import opened EnvExpansion

  // ----- Templates.

  datatype Piece = Text(text: bytes) | Braced(name: bytes) | Bare(name: bytes)

  function PrintedPiece(p: Piece): bytes {
    match p
    case Text(text) => text
    case Braced(name) => [DOLLAR, OPEN] + name + [CLOSE]
    case Bare(name) => [DOLLAR] + name
  }

  function Printed(t: seq<Piece>): bytes {
    if t == [] then [] else PrintedPiece(t[0]) + Printed(t[1..])
  }

  predicate IsName(name: bytes) {
    name != [] && IsNameStart(name[0]) && forall i :: 0 <= i < |name| ==> IsNameContinue(name[i])
  }

  // No literal holds a dollar, no braced name a closing brace, and no bare name runs on into what follows it.
  predicate WellFormed(t: seq<Piece>) {
    t == [] ||
    (WellFormed(t[1..]) &&
     match t[0]
     case Text(text) => Lacks(text, DOLLAR)
     case Braced(name) => Lacks(name, CLOSE)
     case Bare(name) => IsName(name) && (Printed(t[1..]) == [] || !IsNameContinue(Printed(t[1..])[0])))
  }

  // The literal text as the source copies it.
  function Copied(text: bytes): bytes {
    if text == [] then [] else AsChar(text[0]) + Copied(text[1..])
  }

  function Meaning(t: seq<Piece>, env: Env, depth: nat, cap: nat): bytes
    requires depth <= cap
  {
    if t == [] then []
    else
      (match t[0]
       case Text(text) => Copied(text)
       case Braced(name) => TokenValue(Ref(name), env, depth, cap)
       case Bare(name) => TokenValue(Ref(name), env, depth, cap))
      + Meaning(t[1..], env, depth, cap)
  }

  lemma BracedFront(name: bytes, rest: bytes)
    requires Lacks(name, CLOSE)
    ensures var s := [DOLLAR, OPEN] + name + [CLOSE] + rest;
            FirstToken(s) == Lexeme(Ref(name), |name| + 3) && s[|name| + 3..] == rest
  {
    var s := [DOLLAR, OPEN] + name + [CLOSE] + rest;
    assert s[2..] == name + [CLOSE] + rest;
    assert forall i :: 0 <= i < |name| ==> s[2..][i] == name[i] && name[i] in name;
    CloseAtIs(s[2..], |name|);
    assert s[2..2 + |name|] == name;
  }

  lemma BareFront(name: bytes, rest: bytes)
    requires IsName(name) && (rest == [] || !IsNameContinue(rest[0]))
    ensures var s := [DOLLAR] + name + rest;
            FirstToken(s) == Lexeme(Ref(name), |name| + 1) && s[|name| + 1..] == rest
  {
    var s := [DOLLAR] + name + rest;
    assert s[2..] == name[1..] + rest;
    NameLenIs(s[2..], |name| - 1);
    assert s[1..1 + |name|] == name;
  }

  lemma FrontToken(s: bytes, env: Env, depth: nat, cap: nat)
    requires s != [] && depth <= cap
    ensures var x := FirstToken(s);
            TokensValue(Tokens(s), env, depth, cap) ==
            TokenValue(x.token, env, depth, cap) + TokensValue(Tokens(s[x.len..]), env, depth, cap)
  {
    hide FirstToken, TokenValue;
    assert Tokens(s)[1..] == Tokens(s[FirstToken(s).len..]);
  }

  lemma {:induction false} TextFront(text: bytes, rest: bytes, env: Env, depth: nat, cap: nat)
    requires Lacks(text, DOLLAR) && depth <= cap
    ensures TokensValue(Tokens(text + rest), env, depth, cap) ==
        Copied(text) + TokensValue(Tokens(rest), env, depth, cap)
  {
    hide TokensValue, Tokens, TokenValue, FirstToken, AsChar;
    var more := TokensValue(Tokens(rest), env, depth, cap);
    if text == [] {
      assert text + rest == rest;
      assert [] + more == more;
    } else {
      var s := text + rest;
      assert s[0] == text[0] && text[0] in text;
      assert s[1..] == text[1..] + rest;
      PlainFront(s, env, depth, cap);
      FrontToken(s, env, depth, cap);
      TextFront(text[1..], rest, env, depth, cap);
      assert AsChar(text[0]) + (Copied(text[1..]) + more) == AsChar(text[0]) + Copied(text[1..]) + more;
    }
  }

  lemma PlainFront(s: bytes, env: Env, depth: nat, cap: nat)
    requires s != [] && s[0] != DOLLAR && depth <= cap
    ensures FirstToken(s) == Lexeme(Lit(s[0]), 1) && TokenValue(Lit(s[0]), env, depth, cap) == AsChar(s[0])
  {
  }

  // Expanding the printed template gives its literals and the expansions of its references, in order.
  lemma {:induction false} TemplateMeaning(t: seq<Piece>, env: Env, depth: nat, cap: nat)
    requires WellFormed(t) && depth <= cap
    ensures Expanded(Printed(t), env, depth, cap) == Meaning(t, env, depth, cap)
  {
    hide TokensValue, TokenValue, Tokens, FirstToken, Copied;
    if t == [] {
      NoTokens(env, depth, cap);
    } else {
      var rest := Printed(t[1..]);
      TemplateMeaning(t[1..], env, depth, cap);
      match t[0] {
        case Text(text) =>
          TextFront(text, rest, env, depth, cap);
        case Braced(name) =>
          BracedFront(name, rest);
          FrontToken(Printed(t), env, depth, cap);
        case Bare(name) =>
          BareFront(name, rest);
          FrontToken(Printed(t), env, depth, cap);
      }
    }
  }

  lemma NoTokens(env: Env, depth: nat, cap: nat)
    requires depth <= cap
    ensures TokensValue(Tokens([]), env, depth, cap) == []
  {
  }

  // ----- Literal text is copied unchanged exactly when it is ASCII.

  predicate AllAscii(s: bytes) {
    forall i :: 0 <= i < |s| ==> s[i] < 0x80
  }

  lemma {:induction false} CopiedLength(text: bytes)
    ensures |Copied(text)| >= |text|
    ensures |Copied(text)| == |text| <==> AllAscii(text)
    ensures AllAscii(text) ==> Copied(text) == text
  {
    if text != [] {
      CopiedLength(text[1..]);
      assert text == [text[0]] + text[1..];
      assert AllAscii(text) <==> text[0] < 0x80 && AllAscii(text[1..]);
    }
  }

  lemma LiteralExactly(text: bytes, env: Env, depth: nat, cap: nat)
    requires Lacks(text, DOLLAR) && depth <= cap
    ensures Expanded(text, env, depth, cap) == text <==> AllAscii(text)
  {
    var t := [Text(text)];
    assert t[1..] == [] && text + [] == text && Copied(text) + [] == Copied(text);
    TemplateMeaning(t, env, depth, cap);
    assert Printed(t) == text;
    CopiedLength(text);
  }

  // ----- Reference chains.

  // Following references from s, at most n of them can be followed one after the other.
  ghost predicate Chain(s: bytes, env: Env, n: nat)
    decreases n
  {
    forall name :: Ref(name) in Tokens(s) ==>
      n > 0 && (Lookup(env, name).Some? ==> Chain(Lookup(env, name).value, env, n - 1))
  }

  ghost predicate Among(ts: seq<Token>, s: bytes) {
    forall t :: t in ts ==> t in Tokens(s)
  }

  // The value a reference in s resolves to has shorter chains than s.
  lemma ChainStep(s: bytes, env: Env, n: nat, name: bytes)
    requires Chain(s, env, n) && Ref(name) in Tokens(s)
    ensures n > 0 && (Lookup(env, name).Some? ==> Chain(Lookup(env, name).value, env, n - 1))
  {
  }

  // Expansion without a cap, for values whose chains end.
  ghost function Uncapped(s: bytes, env: Env, n: nat): bytes
    requires Chain(s, env, n)
    decreases n, 1, 0
  {
    UncappedTokens(Tokens(s), s, env, n)
  }

  ghost function UncappedTokens(ts: seq<Token>, s: bytes, env: Env, n: nat): bytes
    requires Chain(s, env, n) && Among(ts, s)
    decreases n, 0, |ts|
  {
    if ts == [] then []
    else
      assert ts[0] in ts && Among(ts[1..], s);
      (match ts[0]
       case Lit(b) => AsChar(b)
       case Ref(name) =>
         ChainStep(s, env, n, name);
         match Lookup(env, name)
         case None => []
         case Some(v) => Uncapped(v, env, n - 1))
      + UncappedTokens(ts[1..], s, env, n)
  }

  lemma ReferenceFree(s: bytes, env: Env)
    requires Chain(s, env, 0)
    ensures forall t :: t in Tokens(s) ==> t.Lit?
  {
    assert forall t :: t in Tokens(s) && t.Ref? ==> t == Ref(t.name);
  }

  // Where every chain ends within the cap, the cap does not matter, whatever the bytes.
  lemma {:induction false} CapIrrelevant(s: bytes, env: Env, depth: nat, cap: nat, n: nat)
    requires Chain(s, env, n) && depth + n <= cap
    ensures Expanded(s, env, depth, cap) == Uncapped(s, env, n)
    decreases n, 1, 0
  {
    CapIrrelevantTokens(Tokens(s), s, env, depth, cap, n);
  }

  lemma {:induction false} CapIrrelevantTokens(ts: seq<Token>, s: bytes, env: Env, depth: nat, cap: nat, n: nat)
    requires Chain(s, env, n) && depth + n <= cap && Among(ts, s)
    ensures TokensValue(ts, env, depth, cap) == UncappedTokens(ts, s, env, n)
    decreases n, 0, |ts|
  {
    if ts != [] {
      assert ts[0] in ts;
      if ts[0].Ref? && Lookup(env, ts[0].name).Some? {
        assert Ref(ts[0].name) in Tokens(s);
        CapIrrelevant(Lookup(env, ts[0].name).value, env, depth + 1, cap, n - 1);
      }
      CapIrrelevantTokens(ts[1..], s, env, depth, cap, n);
    }
  }

  // ----- One reference more: the last values are cut off, and come out as they are written.

  // Every value reached from s after exactly k references is ASCII.
  ghost predicate AsciiAt(s: bytes, env: Env, k: nat)
    decreases k
  {
    if k == 0 then AllAscii(s)
    else
      forall name :: Ref(name) in Tokens(s) && Lookup(env, name).Some? ==> AsciiAt(Lookup(env, name).value, env, k - 1)
  }

  // The same for the references among some tokens.
  ghost predicate AsciiAmong(ts: seq<Token>, env: Env, k: nat) {
    forall name :: Ref(name) in ts && Lookup(env, name).Some? ==> AsciiAt(Lookup(env, name).value, env, k)
  }

  // A text of literals is copied byte by byte.
  lemma {:induction false} LiteralsCopied(s: bytes, env: Env, depth: nat, cap: nat)
    requires depth <= cap && forall t :: t in Tokens(s) ==> t.Lit?
    ensures TokensValue(Tokens(s), env, depth, cap) == Copied(s)
    decreases |s|
  {
    hide AsChar;
    if s != [] {
      var x := FirstToken(s);
      assert Tokens(s)[0] == x.token && Tokens(s)[0] in Tokens(s);
      assert x == Lexeme(Lit(s[0]), 1);
      assert Tokens(s)[1..] == Tokens(s[1..]);
      assert forall t :: t in Tokens(s[1..]) ==> t in Tokens(s);
      LiteralsCopied(s[1..], env, depth, cap);
    }
  }

  // With one level more, the text is never shorter, and longer where something that is not ASCII was cut off.
  lemma {:induction false} OneLevelMore(s: bytes, env: Env, depth: nat, cap: nat, n: nat)
    requires Chain(s, env, n) && depth + n <= cap + 1
    ensures var low, high := Expanded(s, env, depth, cap), Expanded(s, env, depth, cap + 1);
            && |low| <= |high|
            && (AsciiAt(s, env, cap + 1 - depth) ==> low == high)
            && (!AsciiAt(s, env, cap + 1 - depth) ==> |low| < |high|)
    decreases n, 1, 0
  {
    hide Tokens, TokensValue, Copied;
    if depth > cap {
      ReferenceFree(s, env);
      LiteralsCopied(s, env, depth, cap + 1);
      CopiedLength(s);
    } else {
      TokensMore(Tokens(s), s, env, depth, cap, n);
    }
  }

  lemma {:induction false} TokensMore(ts: seq<Token>, s: bytes, env: Env, depth: nat, cap: nat, n: nat)
    requires Chain(s, env, n) && depth <= cap && depth + n <= cap + 1 && Among(ts, s)
    ensures var low, high := TokensValue(ts, env, depth, cap), TokensValue(ts, env, depth, cap + 1);
            && |low| <= |high|
            && (AsciiAmong(ts, env, cap - depth) ==> low == high)
            && (!AsciiAmong(ts, env, cap - depth) ==> |low| < |high|)
    decreases n, 0, |ts|
  {
    hide Tokens, Expanded, AsciiAt, AsChar, Lookup;
    if ts != [] {
      var t := ts[0];
      assert t in ts;
      if t.Ref? && Lookup(env, t.name).Some? {
        assert Ref(t.name) in Tokens(s);
        ChainStep(s, env, n, t.name);
        OneLevelMore(Lookup(env, t.name).value, env, depth + 1, cap, n - 1);
      }
      TokensMore(ts[1..], s, env, depth, cap, n);
      AsciiFront(ts, env, cap - depth);
    }
  }

  lemma AsciiFront(ts: seq<Token>, env: Env, k: nat)
    requires ts != []
    ensures AsciiAmong(ts, env, k) <==>
            AsciiAmong(ts[1..], env, k)
            && (ts[0].Ref? && Lookup(env, ts[0].name).Some? ==> AsciiAt(Lookup(env, ts[0].name).value, env, k))
  {
    hide AsciiAt, Lookup;
    assert forall t :: t in ts <==> t == ts[0] || t in ts[1..];
    assert ts[0].Ref? ==> ts[0] == Ref(ts[0].name);
  }

  // A value whose chains reach at most one reference past the cap: any higher cap gives the same text,
  // namely the uncapped one, exactly when the values that the lower one cuts off are ASCII.
  lemma RaisingTheCap(s: bytes, env: Env, depth: nat, cap: nat, higher: nat, n: nat)
    requires Chain(s, env, n) && depth + n <= cap + 1 && cap < higher
    ensures Expanded(s, env, depth, higher) == Expanded(s, env, depth, cap) <==> AsciiAt(s, env, cap + 1 - depth)
    ensures Expanded(s, env, depth, cap) == Uncapped(s, env, n) <==> AsciiAt(s, env, cap + 1 - depth)
  {
    hide Expanded, Uncapped, AsciiAt, Chain;
    CapIrrelevant(s, env, depth, cap + 1, n);
    CapIrrelevant(s, env, depth, higher, n);
    OneLevelMore(s, env, depth, cap, n);
  }

  // The letter e with an acute accent, two bytes long, comes out as two letters of two bytes each.
  lemma AccentChanges(env: Env)
    ensures Expanded([0xC3, 0xA9], env, 0, MAX_DEPTH) == [0xC3, 0x83, 0xC2, 0xA9]
  {
    var text: bytes := [0xC3, 0xA9];
    var t := [Text(text)];
    assert t[1..] == [] && text + [] == text && text[1..] == [0xA9] && text[1..][1..] == [];
    TemplateMeaning(t, env, 0, MAX_DEPTH);
    assert Copied(text[1..]) == AsChar(0xA9) + [];
    assert Copied(text) == AsChar(0xC3) + Copied(text[1..]);
  }

  // ----- One reference more and the cap shows: chains $A, $AA, $AAA, ... ending in a text.

  function Key(i: nat): (k: bytes)
    ensures |k| == i + 1 && IsName(k)
  {
    seq(i + 1, _ => 65 as byte)
  }

  function Rung(last: nat, text: bytes, i: nat): bytes {
    if i == last then text else [DOLLAR] + Key(i + 1)
  }

  // Key(0) refers to Key(1), and so on; Key(last) holds the text.
  function Ladder(last: nat, text: bytes): Env {
    Env(map[], map i | 0 <= i <= last :: Key(i) := Rung(last, text, i))
  }

  lemma LadderLookup(last: nat, text: bytes, i: nat)
    requires i <= last
    ensures Lookup(Ladder(last, text), Key(i)) == Some(Rung(last, text, i))
  {
    var env := Ladder(last, text);
    assert Key(i) in env.file;
    assert forall j :: 0 <= j <= last && Key(j) == Key(i) ==> |Key(j)| == |Key(i)|;
  }

  lemma OneReference(name: bytes)
    requires IsName(name)
    ensures Tokens([DOLLAR] + name) == [Ref(name)]
  {
    BareFront(name, []);
    assert [DOLLAR] + name + [] == [DOLLAR] + name;
    assert Tokens([]) == [];
  }

  lemma {:induction false} LadderChain(last: nat, text: bytes, i: nat)
    requires i <= last && Chain(text, Ladder(last, text), 0)
    ensures Chain([DOLLAR] + Key(i), Ladder(last, text), last - i + 1)
    decreases last - i
  {
    hide Tokens, Ladder, Lookup;
    OneReference(Key(i));
    LadderLookup(last, text, i);
    if i < last {
      LadderChain(last, text, i + 1);
    }
  }

  lemma {:induction false} LadderCapped(last: nat, text: bytes, i: nat, cap: nat)
    requires i <= last && i <= cap + 1
    ensures Expanded([DOLLAR] + Key(i), Ladder(last, text), i, cap) ==
            if last <= cap then Expanded(text, Ladder(last, text), last + 1, cap) else [DOLLAR] + Key(cap + 1)
    decreases last - i
  {
    if i <= cap {
      var env := Ladder(last, text);
      OneReference(Key(i));
      LadderLookup(last, text, i);
      var r := Ref(Key(i));
      assert [r][1..] == [];
      assert TokensValue([], env, i, cap) == [];
      assert TokensValue([r], env, i, cap) == TokenValue(r, env, i, cap) + [];
      if i < last {
        LadderCapped(last, text, i + 1, cap);
      }
    }
  }

  // For every cap there is a chain one longer than it allows, and its value comes out unexpanded.
  lemma CapIsTight(cap: nat)
    ensures var env := Ladder(cap + 1, [120]);
            var s := [DOLLAR] + Key(0);
            && Chain(s, env, cap + 2)
            && Expanded(s, env, 0, cap) == [DOLLAR] + Key(cap + 1)
            && Expanded(s, env, 0, cap + 1) == [120]
  {
    var env := Ladder(cap + 1, [120]);
    assert Tokens([120]) == [Lit(120)] by {
      assert [120 as byte][1..] == [];
      assert Tokens([]) == [];
    }
    LadderChain(cap + 1, [120], 0);
    LadderCapped(cap + 1, [120], 0, cap);
    LadderCapped(cap + 1, [120], 0, cap + 1);
  }

  // An accented letter at the end of a chain of nine references: the loader cuts it off and keeps it, one
  // level more would garble it.
  lemma AccentAtTheCap()
    ensures var env := Ladder(MAX_DEPTH, [0xC3, 0xA9]);
            var s := [DOLLAR] + Key(0);
            && Chain(s, env, MAX_DEPTH + 1) && !AsciiAt(s, env, MAX_DEPTH + 1)
            && Expanded(s, env, 0, MAX_DEPTH) == [0xC3, 0xA9]
            && Expanded(s, env, 0, MAX_DEPTH + 1) == [0xC3, 0x83, 0xC2, 0xA9]
  {
    hide Ladder, Key, Tokens, AsciiAt, Expanded;
    var text: bytes := [0xC3, 0xA9];
    var env := Ladder(MAX_DEPTH, text);
    var s := [DOLLAR] + Key(0);
    AccentTokens(env);
    LadderChain(MAX_DEPTH, text, 0);
    LadderCapped(MAX_DEPTH, text, 0, MAX_DEPTH);
    LadderCapped(MAX_DEPTH, text, 0, MAX_DEPTH + 1);
    RaisingTheCap(s, env, 0, MAX_DEPTH, MAX_DEPTH + 1, MAX_DEPTH + 1);
  }

  lemma AccentTokens(env: Env)
    ensures var text: bytes := [0xC3, 0xA9];
            && Chain(text, env, 0)
            && Expanded(text, env, MAX_DEPTH + 1, MAX_DEPTH) == text
            && Expanded(text, env, MAX_DEPTH + 1, MAX_DEPTH + 1) == [0xC3, 0x83, 0xC2, 0xA9]
  {
    var text: bytes := [0xC3, 0xA9];
    assert text[1..] == [0xA9] && text[1..][1..] == [];
    assert Tokens([0xA9]) == [Lit(0xA9)] by { assert Tokens([]) == []; assert [0xA9 as byte][1..] == []; }
    assert Tokens(text) == [Lit(0xC3)] + Tokens([0xA9]);
    LiteralsCopied(text, env, MAX_DEPTH + 1, MAX_DEPTH + 1);
    assert Copied([0xA9]) == AsChar(0xA9) + Copied([]);
    assert Copied(text) == AsChar(0xC3) + Copied([0xA9]);
  }

  // A value that refers to itself comes back unexpanded, whatever the cap.
  lemma {:induction false} SelfReference(name: bytes, env: Env, depth: nat, cap: nat)
    requires IsName(name) && Lookup(env, name) == Some([DOLLAR] + name)
    ensures Expanded([DOLLAR] + name, env, depth, cap) == [DOLLAR] + name
    decreases Fuel(depth, cap)
  {
    if depth <= cap {
      OneReference(name);
      assert [Ref(name)][1..] == [];
      assert TokensValue([], env, depth, cap) == [];
      assert TokensValue([Ref(name)], env, depth, cap) == TokenValue(Ref(name), env, depth, cap) + [];
      SelfReference(name, env, depth + 1, cap);
    }
  }
}
