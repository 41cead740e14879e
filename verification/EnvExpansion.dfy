/** Expansion of `$NAME` and `${NAME}` in configuration values (nivasa-config/src/lib.rs). */
module EnvExpansion {
  import opened Results
  import opened Bytes

  const DOLLAR: byte := 36
  const OPEN: byte := 123
  const CLOSE: byte := 125

  predicate IsNameStart(b: byte) {
    b == 95 || 65 <= b <= 90 || 97 <= b <= 122
  }

  predicate IsNameContinue(b: byte) {
    IsNameStart(b) || 48 <= b <= 57
  }

  // The source pushes each byte as a char: bytes from 0x80 up become two bytes of UTF-8.
  function AsChar(b: byte): bytes {
    if b < 0x80 then [b] else [0xC0 + b / 64, 0x80 + b % 64]
  }

  datatype Env = Env(process: map<bytes, bytes>, file: map<bytes, bytes>)

  // The process environment wins over the loaded file.
  function Lookup(env: Env, name: bytes): Option<bytes> {
    if name in env.process then Some(env.process[name])
    else if name in env.file then Some(env.file[name])
    else None
  }

  // ----- What a value says: literal bytes and references.

  datatype Token = Lit(b: byte) | Ref(name: bytes)

  // Position of the first `}`, or the length of s.
  function CloseAt(s: bytes): (k: nat)
    ensures k <= |s|
  {
    if s == [] || s[0] == CLOSE then 0 else 1 + CloseAt(s[1..])
  }

  function NameLen(s: bytes): (n: nat)
    ensures n <= |s|
  {
    if s != [] && IsNameContinue(s[0]) then 1 + NameLen(s[1..]) else 0
  }

  // The token at the front of s, and how many bytes it takes.
  datatype Lexeme = Lexeme(token: Token, len: nat)

  function FirstToken(s: bytes): (x: Lexeme)
    requires s != []
    ensures 0 < x.len <= |s|
  {
    if s[0] != DOLLAR || |s| == 1 then Lexeme(Lit(s[0]), 1)
    else if s[1] == OPEN then
      var k := CloseAt(s[2..]);
      if 2 + k == |s| then Lexeme(Lit(DOLLAR), 1) else Lexeme(Ref(s[2..2 + k]), k + 3)
    else if !IsNameStart(s[1]) then Lexeme(Lit(DOLLAR), 1)
    else
      var n := NameLen(s[2..]);
      Lexeme(Ref(s[1..2 + n]), 2 + n)
  }

  function Tokens(s: bytes): seq<Token> {
    if s == [] then []
    else
      var x := FirstToken(s);
      [x.token] + Tokens(s[x.len..])
  }

  // ----- Expansion, cut off below depth `cap`.

  function Fuel(depth: nat, cap: nat): nat {
    if depth > cap then 0 else cap + 1 - depth
  }

  function Expanded(s: bytes, env: Env, depth: nat, cap: nat): bytes
    decreases Fuel(depth, cap), 1, 0
  {
    if depth > cap then s else TokensValue(Tokens(s), env, depth, cap)
  }

  function TokenValue(t: Token, env: Env, depth: nat, cap: nat): bytes
    requires depth <= cap
    decreases Fuel(depth, cap), 0, 0
  {
    match t
    case Lit(b) => AsChar(b)
    case Ref(name) =>
      match Lookup(env, name)
      case None => []
      case Some(v) => Expanded(v, env, depth + 1, cap)
  }

  function TokensValue(ts: seq<Token>, env: Env, depth: nat, cap: nat): bytes
    requires depth <= cap
    decreases Fuel(depth, cap), 0, |ts| + 1
  {
    if ts == [] then [] else TokenValue(ts[0], env, depth, cap) + TokensValue(ts[1..], env, depth, cap)
  }

  const MAX_DEPTH: nat := 8

  // ----- The source's loop.

  // The reference read at `index`: the value of its name, one level deeper.
  method ResolveName(name: bytes, env: Env, depth: nat) returns (resolved: bytes)
    requires depth <= MAX_DEPTH
    ensures resolved == TokenValue(Ref(name), env, depth, MAX_DEPTH)
    decreases MAX_DEPTH + 1 - depth, 0
  {
    match Lookup(env, name) {
      case None => resolved := [];
      case Some(v) => resolved := ExpandEnvValue(v, env, depth + 1);
    }
  }

  // What the rest of the value, from `index` on, expands to.
  function Remaining(value: bytes, index: nat, env: Env, depth: nat): bytes
    requires index <= |value| && depth <= MAX_DEPTH
  {
    TokensValue(Tokens(value[index..]), env, depth, MAX_DEPTH)
  }

  // Expanding from `index` on is expanding the token there, then what follows it.
  lemma TokenAt(value: bytes, index: nat, x: Lexeme, env: Env, depth: nat)
    requires index < |value| && depth <= MAX_DEPTH && FirstToken(value[index..]) == x
    ensures index + x.len <= |value|
    ensures Remaining(value, index, env, depth) ==
            TokenValue(x.token, env, depth, MAX_DEPTH) + Remaining(value, index + x.len, env, depth)
  {
    hide FirstToken, TokenValue;
    assert value[index..][x.len..] == value[index + x.len..];
    assert Tokens(value[index..])[1..] == Tokens(value[index + x.len..]);
  }

  lemma {:induction false} CloseAtIs(s: bytes, k: nat)
    requires k <= |s| && (forall i :: 0 <= i < k ==> s[i] != CLOSE) && (k < |s| ==> s[k] == CLOSE)
    ensures CloseAt(s) == k
  {
    if k > 0 {
      CloseAtIs(s[1..], k - 1);
    }
  }

  lemma {:induction false} NameLenIs(s: bytes, n: nat)
    requires n <= |s| && (forall i :: 0 <= i < n ==> IsNameContinue(s[i])) && (n < |s| ==> !IsNameContinue(s[n]))
    ensures NameLen(s) == n
  {
    if n > 0 {
      NameLenIs(s[1..], n - 1);
    }
  }

  // One token further: what is resolved so far grows by the token's value.
  lemma Resolved(all: bytes, resolved: bytes, value: bytes, index: nat, x: Lexeme, env: Env, depth: nat)
    requires index < |value| && depth <= MAX_DEPTH && FirstToken(value[index..]) == x
    requires all == resolved + Remaining(value, index, env, depth)
    ensures index + x.len <= |value|
    ensures all == resolved + TokenValue(x.token, env, depth, MAX_DEPTH) + Remaining(value, index + x.len, env, depth)
    ensures x.token.Lit? ==> TokenValue(x.token, env, depth, MAX_DEPTH) == AsChar(x.token.b)
  {
    hide FirstToken, Remaining, Expanded, AsChar, Lookup;
    TokenAt(value, index, x, env, depth);
  }

  method ExpandEnvValue(value: bytes, env: Env, depth: nat) returns (resolved: bytes)
    ensures resolved == Expanded(value, env, depth, MAX_DEPTH)
    decreases Fuel(depth, MAX_DEPTH), 1
  {
    hide TokensValue, Tokens, FirstToken, TokenValue, AsChar, Remaining, Expanded, Lookup;
    if depth > MAX_DEPTH {
      CutOff(value, env, depth);
      return value;
    }
    resolved := [];
    var index := 0;
    ghost var all := Expanded(value, env, depth, MAX_DEPTH);
    WholeValue(value, env, depth);
    while index < |value|
      invariant index <= |value|
      invariant all == resolved + Remaining(value, index, env, depth)
    {
      if value[index] != DOLLAR {
        PlainAt(value, index);
        Resolved(all, resolved, value, index, Lexeme(Lit(value[index]), 1), env, depth);
        resolved := resolved + AsChar(value[index]);
        index := index + 1;
        continue;
      }
      if index + 1 >= |value| {
        PlainAt(value, index);
        Resolved(all, resolved, value, index, Lexeme(Lit(DOLLAR), 1), env, depth);
        resolved := resolved + AsChar(DOLLAR);
        index := |value|;
        break;
      }
      if value[index + 1] == OPEN {
        var end := index + 2;
        while end < |value| && value[end] != CLOSE
          invariant index + 2 <= end <= |value|
          invariant forall i :: index + 2 <= i < end ==> value[i] != CLOSE
        {
          end := end + 1;
        }
        BracedAt(value, index, end);
        if end >= |value| {
          Resolved(all, resolved, value, index, Lexeme(Lit(DOLLAR), 1), env, depth);
          resolved := resolved + AsChar(DOLLAR);
          index := index + 1;
          continue;
        }
        var name := value[index + 2..end];
        Resolved(all, resolved, value, index, Lexeme(Ref(name), end + 1 - index), env, depth);
        var part := ResolveName(name, env, depth);
        resolved := resolved + part;
        index := end + 1;
        continue;
      }
      if !IsNameStart(value[index + 1]) {
        PlainAt(value, index);
        Resolved(all, resolved, value, index, Lexeme(Lit(DOLLAR), 1), env, depth);
        resolved := resolved + AsChar(DOLLAR);
        index := index + 1;
        continue;
      }
      var end := index + 2;
      while end < |value| && IsNameContinue(value[end])
        invariant index + 2 <= end <= |value|
        invariant forall i :: index + 2 <= i < end ==> IsNameContinue(value[i])
      {
        end := end + 1;
      }
      var name := value[index + 1..end];
      BareAt(value, index, end);
      Resolved(all, resolved, value, index, Lexeme(Ref(name), end - index), env, depth);
      var part := ResolveName(name, env, depth);
      resolved := resolved + part;
      index := end;
    }
  }

  lemma CutOff(value: bytes, env: Env, depth: nat)
    requires depth > MAX_DEPTH
    ensures Expanded(value, env, depth, MAX_DEPTH) == value
  {
  }

  lemma WholeValue(value: bytes, env: Env, depth: nat)
    requires depth <= MAX_DEPTH
    ensures Remaining(value, 0, env, depth) == Expanded(value, env, depth, MAX_DEPTH)
    ensures Remaining(value, |value|, env, depth) == []
  {
    assert value[0..] == value && value[|value|..] == [];
  }

  // A byte that begins no reference stands for itself.
  lemma PlainAt(value: bytes, index: nat)
    requires index < |value|
    requires value[index] == DOLLAR && index + 1 < |value| ==>
        value[index + 1] != OPEN && !IsNameStart(value[index + 1])
    ensures FirstToken(value[index..]) == Lexeme(Lit(value[index]), 1)
  {
  }

  lemma SliceOf(value: bytes, index: nat, a: nat, b: nat)
    requires a <= b && index + b <= |value|
    ensures value[index..][a..b] == value[index + a..index + b] && value[index..][a..] == value[index + a..]
  {
  }

  lemma BracedAt(value: bytes, index: nat, end: nat)
    requires index + 2 <= end <= |value| && value[index] == DOLLAR && value[index + 1] == OPEN
    requires forall i :: index + 2 <= i < end ==> value[i] != CLOSE
    requires end < |value| ==> value[end] == CLOSE
    ensures FirstToken(value[index..]) ==
            if end == |value| then Lexeme(Lit(DOLLAR), 1) else Lexeme(Ref(value[index + 2..end]), end + 1 - index)
  {
    var s := value[index..];
    SliceOf(value, index, 2, |value| - index);
    SliceOf(value, index, 2, end - index);
    CloseAtIs(s[2..], end - index - 2);
  }

  lemma BareAt(value: bytes, index: nat, end: nat)
    requires index + 2 <= end <= |value| && value[index] == DOLLAR && IsNameStart(value[index + 1])
    requires forall i :: index + 2 <= i < end ==> IsNameContinue(value[i])
    requires end < |value| ==> !IsNameContinue(value[end])
    ensures FirstToken(value[index..]) == Lexeme(Ref(value[index + 1..end]), end - index)
  {
    var s := value[index..];
    SliceOf(value, index, 1, end - index);
    SliceOf(value, index, 2, |value| - index);
    NameLenIs(s[2..], end - index - 2);
  }

  // Every loaded value is expanded against the values as loaded, not as already expanded.
  method ExpandEnvValues(env: Env) returns (expanded: map<bytes, bytes>)
    ensures expanded.Keys == env.file.Keys
    ensures forall k :: k in expanded ==> expanded[k] == Expanded(env.file[k], env, 0, MAX_DEPTH)
  {
    expanded := map[];
    var keys := env.file.Keys;
    while keys != {}
      invariant keys <= env.file.Keys
      invariant expanded.Keys == env.file.Keys - keys
      invariant forall k :: k in expanded ==> expanded[k] == Expanded(env.file[k], env, 0, MAX_DEPTH)
      decreases |keys|
    {
      var key :| key in keys;
      var value := ExpandEnvValue(env.file[key], env, 0);
      expanded := expanded[key := value];
      keys := keys - {key};
    }
  }
}
