/** Where the relative path leads, and that no shorter one leads there. Directories are names below the
    root, followed as text: symbolic links are not looked at. */
module RelativePathLaws {
  import opened Results
  import opened RelativePath

  function Location(path: string): seq<string> {
    Followed([], Components(path))
  }

  predicate Lacks(s: string, c: char) {
    c !in s
  }

  // The name of a file or directory, as a piece of a path gives it.
  predicate Plain(name: string) {
    name != "" && name != "." && name != ".." && Lacks(name, '/')
  }

  predicate Below(c: Component) {
    c.ParentDir? || (c.Normal? && Plain(c.name))
  }

  predicate AllBelow(cs: seq<Component>) {
    forall i :: 0 <= i < |cs| ==> Below(cs[i])
  }

  predicate AllNormal(cs: seq<Component>) {
    forall i :: 0 <= i < |cs| ==> cs[i].Normal? && Plain(cs[i].name)
  }

  // An absolute path made only of normal components.
  predicate Straight(path: string) {
    IsAbsolute(path) && ParentDir !in Components(path)
  }

  function Names(cs: seq<Component>): seq<string>
    requires AllNormal(cs)
  {
    seq(|cs|, i requires 0 <= i < |cs| => cs[i].name)
  }

  // A backslash in a name of the target beyond the common prefix.
  predicate BackslashBeyond(fromAbs: string, toAbs: string) {
    var to := Components(toAbs);
    exists k :: CommonLen(Components(fromAbs), to) <= k < |to| && to[k].Normal? && !Lacks(to[k].name, '\\')
  }

  // ----- Reading paths.

  lemma {:induction false} PiecesLackSlash(s: string)
    ensures forall i :: 0 <= i < |Pieces(s)| ==> Lacks(Pieces(s)[i], '/')
    ensures forall c :: Lacks(s, c) ==> forall i :: 0 <= i < |Pieces(s)| ==> Lacks(Pieces(s)[i], c)
  {
    if s != "" {
      PiecesLackSlash(s[1..]);
      var all, rest := Pieces(s), Pieces(s[1..]);
      assert forall i :: 0 < i < |all| ==> all[i] == if s[0] == '/' then rest[i - 1] else rest[i];
      assert Lacks(rest[0], '/');
      forall c | Lacks(s, c) ensures forall i :: 0 <= i < |all| ==> Lacks(all[i], c) {
        assert Lacks(s[1..], c) && s[0] != c;
        assert Lacks(rest[0], c);
      }
    }
  }

  lemma {:induction false} InnerBelow(pieces: seq<string>)
    requires forall i :: 0 <= i < |pieces| ==> Lacks(pieces[i], '/')
    ensures AllBelow(Inner(pieces))
  {
    if pieces != [] {
      InnerBelow(pieces[1..]);
    }
  }

  lemma {:induction false} InnerLacks(pieces: seq<string>, c: char)
    requires forall i :: 0 <= i < |pieces| ==> Lacks(pieces[i], c)
    ensures forall i :: 0 <= i < |Inner(pieces)| && Inner(pieces)[i].Normal? ==> Lacks(Inner(pieces)[i].name, c)
  {
    if pieces != [] {
      InnerLacks(pieces[1..], c);
    }
  }

  lemma {:induction false} InnerConcat(a: seq<string>, b: seq<string>)
    ensures Inner(a + b) == Inner(a) + Inner(b)
  {
    if a == [] {
      assert a + b == b;
    } else {
      assert (a + b)[1..] == a[1..] + b;
      InnerConcat(a[1..], b);
    }
  }

  lemma InnerOne(piece: string)
    ensures Inner([piece]) == if piece == "" || piece == "." then [] else if piece == ".." then [ParentDir]
        else [Normal(piece)]
  {
    assert [piece][1..] == [];
  }

  lemma {:induction false} PiecesConcat(a: string, b: string)
    ensures Pieces(a + "/" + b) == Pieces(a) + Pieces(b)
  {
    if a == "" {
      assert a + "/" + b == "/" + b;
    } else {
      assert (a + "/" + b)[1..] == a[1..] + "/" + b;
      PiecesConcat(a[1..], b);
    }
  }

  lemma {:induction false} PiecesOne(piece: string)
    requires Lacks(piece, '/')
    ensures Pieces(piece) == [piece]
  {
    if piece != "" {
      assert piece[0] != '/';
      PiecesOne(piece[1..]);
      assert [piece[0]] + piece[1..] == piece;
    }
  }

  lemma AbsoluteShape(path: string)
    requires IsAbsolute(path)
    ensures var cs := Components(path);
            cs != [] && cs[0] == RootDir && AllBelow(cs[1..])
  {
    PiecesLackSlash(path);
    InnerBelow(Pieces(path));
    var cs := Components(path);
    assert cs[1..] == Inner(Pieces(path));
  }

  lemma StraightShape(path: string)
    requires Straight(path)
    ensures var cs := Components(path);
            cs != [] && cs[0] == RootDir && AllNormal(cs[1..])
  {
    AbsoluteShape(path);
    BelowNormal(Components(path)[1..]);
  }

  lemma BelowNormal(cs: seq<Component>)
    requires AllBelow(cs) && ParentDir !in cs
    ensures AllNormal(cs)
  {
    hide Plain;
    forall i | 0 <= i < |cs| ensures cs[i].Normal? && Plain(cs[i].name) {
      assert Below(cs[i]) && cs[i] in cs;
    }
  }

  // ----- The pushed parts, joined by slashes.

  // A part that is pushed: an upward step or a name.
  predicate Part(p: string) {
    p != "" && p != "." && Lacks(p, '/')
  }

  predicate Parts(ps: seq<string>) {
    forall i :: 0 <= i < |ps| ==> Part(ps[i])
  }

  function Joined(ps: seq<string>): string {
    if ps == [] then "" else if |ps| == 1 then ps[0] else Joined(ps[..|ps| - 1]) + "/" + ps[|ps| - 1]
  }

  lemma {:induction false} PushedIsJoined(ps: seq<string>)
    requires Parts(ps)
    ensures PushedAll("", ps) == Joined(ps)
    ensures ps != [] ==> Joined(ps) != "" && Joined(ps)[|Joined(ps)| - 1] != '/' && Joined(ps)[0] == ps[0][0]
    decreases |ps|
  {
    if ps != [] {
      var n := |ps| - 1;
      PushedIsJoined(ps[..n]);
      var part := ps[n];
      assert Part(part) && part[0] in part && part[|part| - 1] in part;
      if n > 0 {
        assert ps[..n][0] == ps[0];
      } else {
        assert "" + part == part;
      }
    }
  }

  lemma {:induction false} PushedConcat(path: string, a: seq<string>, b: seq<string>)
    ensures PushedAll(PushedAll(path, a), b) == PushedAll(path, a + b)
    decreases |b|
  {
    hide Pushed;
    if b == [] {
      assert a + b == a;
    } else {
      var n := |b| - 1;
      assert (a + b)[..|a + b| - 1] == a + b[..n];
      PushedConcat(path, a, b[..n]);
    }
  }

  lemma {:induction false} PiecesJoined(ps: seq<string>)
    requires Parts(ps) && ps != []
    ensures Pieces(Joined(ps)) == ps
    decreases |ps|
  {
    var n := |ps| - 1;
    PiecesOne(ps[n]);
    if n == 0 {
      assert ps == [ps[0]];
    } else {
      PiecesJoined(ps[..n]);
      PiecesConcat(Joined(ps[..n]), ps[n]);
      assert ps == ps[..n] + [ps[n]];
    }
  }

  lemma {:induction false} JoinedLacks(ps: seq<string>, c: char)
    requires c != '/' && forall i :: 0 <= i < |ps| ==> Lacks(ps[i], c)
    ensures Lacks(Joined(ps), c)
    decreases |ps|
  {
    if ps != [] {
      JoinedLacks(ps[..|ps| - 1], c);
      assert Lacks(ps[|ps| - 1], c);
    }
  }

  lemma JoinedComponents(ps: seq<string>)
    requires Parts(ps)
    ensures Components(Joined(ps)) == Inner(ps)
  {
    hide Joined;
    if ps == [] {
      NothingJoined();
    } else {
      PushedIsJoined(ps);
      PiecesJoined(ps);
      assert Part(ps[0]) && ps[0][0] in ps[0];
      assert Lead(Joined(ps)) == [];
    }
  }

  lemma NothingJoined()
    ensures Joined([]) == "" && Components("") == [] && Inner([]) == []
  {
    InnerOne("");
  }

  lemma {:induction false} JoinedConcat(a: seq<string>, b: seq<string>)
    requires a != [] && b != []
    ensures Joined(a + b) == Joined(a) + "/" + Joined(b)
    decreases |b|
  {
    var n := |b| - 1;
    assert (a + b)[..|a + b| - 1] == a + b[..n];
    if n == 0 {
      assert a + b[..n] == a;
    } else {
      JoinedConcat(a, b[..n]);
      assert Joined(a) + "/" + Joined(b[..n]) + "/" + b[n] == Joined(a) + "/" + (Joined(b[..n]) + "/" + b[n]);
    }
  }

  lemma SlashedNothing(s: string)
    requires Lacks(s, '\\')
    ensures Slashed(s) == s
  {
  }

  lemma SlashedConcat(a: string, b: string)
    ensures Slashed(a + b) == Slashed(a) + Slashed(b)
  {
  }

  lemma SlashedLacks(s: string)
    ensures Lacks(Slashed(s), '\\')
  {
  }

  // ----- The two runs of parts.

  function Parents(n: nat): seq<Component> {
    if n == 0 then [] else Parents(n - 1) + [ParentDir]
  }

  // One step up for each name; `..` is passed over.
  lemma {:induction false} UpsAre(up: seq<Component>)
    requires AllBelow(up)
    ensures Parts(Ups(up)) && Inner(Ups(up)) == Parents(|Ups(up)|) && |Ups(up)| <= |up|
    ensures forall i :: 0 <= i < |Ups(up)| ==> Ups(up)[i] == ".."
    ensures ParentDir !in up ==> |Ups(up)| == |up|
    decreases |up|
  {
    if up != [] {
      var n := |up| - 1;
      UpsAre(up[..n]);
      if up[n].Normal? {
        InnerConcat(Ups(up[..n]), [".."]);
        InnerOne("..");
      } else {
        assert up[n] == ParentDir && up[n] in up;
        assert Ups(up[..n]) + [] == Ups(up[..n]);
      }
    }
  }

  lemma {:induction false} DownsAre(down: seq<Component>)
    requires AllBelow(down)
    ensures Parts(Downs(down)) && Inner(Downs(down)) == down && |Downs(down)| == |down|
    ensures forall i :: 0 <= i < |down| ==> Downs(down)[i] == OsStr(down[i])
    decreases |down|
  {
    hide Inner, Below, Part, OsStr;
    if down == [] {
      NothingJoined();
    } else {
      var n := |down| - 1;
      DownsAre(down[..n]);
      InnerConcat(Downs(down[..n]), [OsStr(down[n])]);
      OsStrRead(down[n]);
      assert down == down[..n] + [down[n]];
    }
  }

  lemma OsStrRead(c: Component)
    requires Below(c)
    ensures Part(OsStr(c)) && Inner([OsStr(c)]) == [c]
  {
    InnerOne(OsStr(c));
  }

  lemma {:induction false} FollowedDown(dir: seq<string>, cs: seq<Component>)
    requires AllNormal(cs)
    ensures Followed(dir, cs) == dir + Names(cs)
    decreases |cs|
  {
    if cs == [] {
      assert dir + Names(cs) == dir;
    } else {
      FollowedDown(dir + [cs[0].name], cs[1..]);
      assert dir + [cs[0].name] + Names(cs[1..]) == dir + Names(cs);
    }
  }

  lemma {:induction false} FollowedUp(dir: seq<string>, n: nat)
    ensures Followed(dir, Parents(n)) == if n <= |dir| then dir[..|dir| - n] else []
    decreases n
  {
    if n > 0 {
      FollowedUp(dir, n - 1);
      FollowedConcat(dir, Parents(n - 1), [ParentDir]);
      var above := Followed(dir, Parents(n - 1));
      assert Followed(above, [ParentDir]) == Followed(Stepped(above, ParentDir), []);
    }
  }

  // Walking down and up gains at most one level for each name, and less if a `..` takes one back.
  lemma {:induction false} WalkLength(dir: seq<string>, up: seq<Component>)
    requires AllBelow(up)
    ensures |Followed(dir, up)| <= |dir| + |Ups(up)|
    ensures ParentDir in up && dir != [] ==> |Followed(dir, up)| < |dir| + |Ups(up)|
    decreases |up|
  {
    if up != [] {
      var n := |up| - 1;
      var front, last := up[..n], up[n];
      WalkLength(dir, front);
      assert up == front + [last];
      FollowedConcat(dir, front, [last]);
      var here := Followed(dir, front);
      assert Followed(here, [last]) == Followed(Stepped(here, last), []);
      assert Below(last);
      assert last == ParentDir || (ParentDir in up ==> ParentDir in front);
    }
  }

  // Climbing back as many levels as there are names leads back, unless a `..` was passed over and the
  // walk did not start at the root.
  lemma ClimbsBack(dir: seq<string>, up: seq<Component>)
    requires AllBelow(up)
    ensures var back := Followed(Followed(dir, up), Parents(|Ups(up)|));
            |back| <= |dir| && (back == dir <==> ParentDir !in up || dir == [])
  {
    hide Plain, Ups, Parents, Followed;
    var there := Followed(dir, up);
    WalkLength(dir, up);
    UpsAre(up);
    FollowedUp(there, |Ups(up)|);
    if ParentDir !in up {
      BelowNormal(up);
      FollowedDown(dir, up);
    }
  }

  lemma ParentsCount(n: nat)
    ensures |Parents(n)| == n && RootDir !in Parents(n)
  {
  }

  // ----- The theorem.

  // The component lists of two paths, the second one straight: the shared part, and what lies beyond it.
  lemma Beyond(fromAbs: string, toAbs: string)
    requires IsAbsolute(fromAbs) && Straight(toAbs)
    ensures var from, to := Components(fromAbs), Components(toAbs);
            var common := CommonLen(from, to);
            var dir := Followed([], from[..common]);
            && common > 0 && AllBelow(from[common..]) && AllNormal(to[common..]) && AllNormal(from[1..common])
            && dir == Names(from[1..common])
            && Location(fromAbs) == Followed(dir, from[common..]) && Location(toAbs) == dir + Names(to[common..])
  {
    hide Components, CommonLen, Plain, Below;
    AbsoluteShape(fromAbs);
    StraightShape(toAbs);
    var from, to := Components(fromAbs), Components(toAbs);
    var common := CommonLen(from, to);
    FirstShared(from, to);
    var dir := Followed([], from[..common]);
    assert forall i :: common <= i < |from| ==> from[i] == from[1..][i - 1];
    assert forall i :: common <= i < |to| ==> to[i] == to[1..][i - 1];
    assert from == from[..common] + from[common..] && to == from[..common] + to[common..];
    FollowedConcat([], from[..common], from[common..]);
    FollowedConcat([], from[..common], to[common..]);
    FollowedDown(dir, to[common..]);
    assert AllNormal(from[1..common]) by {
      assert from[1..common] == to[1..common];
      assert forall i :: 1 <= i < common ==> to[i] == to[1..][i - 1];
    }
    FollowedDown([], from[1..common]);
    assert from[..common][1..] == from[1..common];
    assert Stepped([], RootDir) == [];
    assert [] + Names(from[1..common]) == Names(from[1..common]);
  }

  lemma FirstShared(a: seq<Component>, b: seq<Component>)
    requires a != [] && b != [] && a[0] == b[0]
    ensures CommonLen(a, b) > 0
  {
  }

  // Without a backslash the result is the climb and the descent, and nothing else.
  lemma RelativeComponents(fromAbs: string, toAbs: string)
    requires IsAbsolute(fromAbs) && Straight(toAbs) && !BackslashBeyond(fromAbs, toAbs)
    ensures var from, to := Components(fromAbs), Components(toAbs);
            var common := CommonLen(from, to);
            Components(Relative(fromAbs, toAbs)) == Parents(|Ups(from[common..])|) + to[common..]
  {
    hide Components, CommonLen, Followed, Ups, Downs, PushedAll, Joined, Inner, Plain, Part, Slashed;
    Beyond(fromAbs, toAbs);
    var from, to := Components(fromAbs), Components(toAbs);
    var common := CommonLen(from, to);
    var up, down := from[common..], to[common..];
    var parts := Ups(up) + Downs(down);
    UpsAre(up);
    NormalsBelow(down);
    DownsAre(down);
    PushedConcat("", Ups(up), Downs(down));
    PushedIsJoined(parts);
    forall i | 0 <= i < |parts| ensures Lacks(parts[i], '\\') {
      if i >= |Ups(up)| {
        assert parts[i] == OsStr(to[common + (i - |Ups(up)|)]);
      }
    }
    JoinedLacks(parts, '\\');
    SlashedNothing(Joined(parts));
    JoinedComponents(parts);
    InnerConcat(Ups(up), Downs(down));
  }

  lemma NormalsBelow(cs: seq<Component>)
    requires AllNormal(cs)
    ensures AllBelow(cs)
  {
  }

  // Beyond depth m no name has a backslash.
  predicate CleanFrom(dir: seq<string>, m: nat) {
    forall i :: m <= i < |dir| ==> Lacks(dir[i], '\\')
  }

  // No name among the components has a backslash.
  predicate CleanNames(cs: seq<Component>) {
    forall i :: 0 <= i < |cs| && cs[i].Normal? ==> Lacks(cs[i].name, '\\')
  }

  // A climb of n steps, then components without backslashes.
  predicate Climbs(path: string, n: nat, rest: seq<Component>) {
    Components(path) == Parents(n) + rest && CleanNames(rest)
  }

  lemma ClimbsAre(path: string, n: nat, rest: seq<Component>)
    requires Climbs(path, n, rest)
    ensures Components(path) == Parents(n) + rest && CleanNames(rest)
  {
  }

  lemma {:induction false} StaysClean(dir: seq<string>, m: nat, path: seq<Component>)
    requires CleanFrom(dir, m) && CleanNames(path)
    ensures CleanFrom(Followed(dir, path), m)
    decreases |path|
  {
    if path != [] {
      assert path[0].Normal? ==> Lacks(path[0].name, '\\');
      StaysClean(Stepped(dir, path[0]), m, path[1..]);
    }
  }

  lemma CleanComponents(s: string)
    requires Lacks(s, '\\')
    ensures CleanNames(Components(s)) && CleanNames(Inner(Pieces(s)))
  {
    hide Pieces, Inner;
    PiecesLackSlash(s);
    InnerLacks(Pieces(s), '\\');
  }

  // With a backslash, the climb is the same, and what follows it has no backslash left.
  lemma ClimbThenClean(up: seq<Component>, down: seq<Component>)
    requires AllBelow(up) && AllNormal(down) && down != []
    ensures var s := Slashed(PushedAll(PushedAll("", Ups(up)), Downs(down)));
            exists rest :: Climbs(s, |Ups(up)|, rest)
  {
    hide Ups, Downs, PushedAll, Joined, Inner, Pieces, Plain, Slashed;
    var parts := Ups(up) + Downs(down);
    UpsAre(up);
    NormalsBelow(down);
    DownsAre(down);
    PushedConcat("", Ups(up), Downs(down));
    PushedIsJoined(parts);
    var tail := Slashed(Joined(Downs(down)));
    SlashedLacks(Joined(Downs(down)));
    CleanComponents(tail);
    if Ups(up) == [] {
      assert parts == Downs(down);
      assert Climbs(tail, 0, Components(tail));
    } else {
      ClimbJoined(Ups(up), Downs(down));
      var rest := Inner(Pieces(tail));
      assert Climbs(Slashed(Joined(parts)), |Ups(up)|, rest);
    }
  }

  lemma ClimbJoined(ups: seq<string>, downs: seq<string>)
    requires Parts(ups) && ups != [] && downs != [] && forall i :: 0 <= i < |ups| ==> ups[i] == ".."
    ensures Components(Slashed(Joined(ups + downs))) == Inner(ups) + Inner(Pieces(Slashed(Joined(downs))))
  {
    hide Joined, Pieces, Inner, Slashed;
    var climb, tail := Joined(ups), Joined(downs);
    JoinedConcat(ups, downs);
    JoinedLacks(ups, '\\');
    SlashedNothing(climb);
    SlashedNothing("/");
    SlashedConcat(climb + "/", tail);
    SlashedConcat(climb, "/");
    var s := climb + "/" + Slashed(tail);
    PiecesConcat(climb, Slashed(tail));
    PiecesJoined(ups);
    PushedIsJoined(ups);
    InnerConcat(ups, Pieces(Slashed(tail)));
    assert s[0] == '.' && Pieces(s)[0] == "..";
  }

  // No `..` beyond the common prefix, or nothing common but the root.
  predicate ClimbsRight(fromAbs: string, toAbs: string) {
    var from := Components(fromAbs);
    var common := CommonLen(from, Components(toAbs));
    ParentDir !in from[common..] || common == 1
  }

  // Following the result from the start directory reaches exactly the target if and only if no name it
  // has to write contains a backslash, which it turns into a slash, and no `..` of the start directory is
  // passed over in the climb. The target is a path without `..`.
  lemma RelativeReaches(fromAbs: string, toAbs: string)
    requires IsAbsolute(fromAbs) && Straight(toAbs)
    ensures Followed(Location(fromAbs), Components(Relative(fromAbs, toAbs))) == Location(toAbs)
            <==> !BackslashBeyond(fromAbs, toAbs) && ClimbsRight(fromAbs, toAbs)
  {
    hide Components, CommonLen, Followed, Ups, Downs, PushedAll, Plain, Parents, Slashed, Location;
    Beyond(fromAbs, toAbs);
    var from, to := Components(fromAbs), Components(toAbs);
    var common := CommonLen(from, to);
    var dir := Followed([], from[..common]);
    var up, down := from[common..], to[common..];
    var start := Location(fromAbs);
    var n := |Ups(up)|;
    ClimbsBack(dir, up);
    var back := Followed(start, Parents(n));
    if !BackslashBeyond(fromAbs, toAbs) {
      RelativeComponents(fromAbs, toAbs);
      FollowedConcat(start, Parents(n), down);
      FollowedDown(back, down);
      SameEnd(back, dir, Names(down));
    } else {
      var k :| common <= k < |to| && to[k].Normal? && !Lacks(to[k].name, '\\');
      ClimbThenClean(up, down);
      var rest :| Climbs(Relative(fromAbs, toAbs), n, rest);
      ClimbsAre(Relative(fromAbs, toAbs), n, rest);
      FollowedConcat(start, Parents(n), rest);
      StaysClean(back, |dir|, rest);
      var name := Location(toAbs)[|dir| + (k - common)];
      assert name == to[k].name;
    }
  }

  lemma SameEnd(a: seq<string>, b: seq<string>, end: seq<string>)
    ensures a + end == b + end <==> a == b
  {
    if a + end == b + end {
      assert |a| == |b|;
      assert a == (a + end)[..|a|] && b == (b + end)[..|b|];
    }
  }

  // For two straight paths only the backslashes matter.
  lemma StraightReaches(fromAbs: string, toAbs: string)
    requires Straight(fromAbs) && Straight(toAbs)
    ensures Followed(Location(fromAbs), Components(Relative(fromAbs, toAbs))) == Location(toAbs)
            <==> !BackslashBeyond(fromAbs, toAbs)
  {
    hide Components, CommonLen, Followed, Relative, Location;
    RelativeReaches(fromAbs, toAbs);
  }

  // From `/x/a/..`, which is `/x`, the result for `/x/c` is `../c`.
  lemma DotDotMisses()
    ensures IsAbsolute("/x/a/..") && Straight("/x/c") && Location("/x/a/..") == ["x"] && Location("/x/c") == ["x", "c"]
    ensures Components(Relative("/x/a/..", "/x/c")) == [ParentDir, Normal("c")]
    ensures Followed(["x"], [ParentDir, Normal("c")]) == ["c"]
  {
    hide Components, CommonLen, Followed, Relative, Ups, Parents;
    DotDotComponents();
    var from, to := Components("/x/a/.."), Components("/x/c");
    CommonExactly(from, to, 2);
    assert to[2..] == [Normal("c")] && from[2..] == [Normal("a"), ParentDir];
    WalkTwo("x", "c");
    WalkTwo("x", "a");
    FollowedConcat([], [RootDir, Normal("x"), Normal("a")], [ParentDir]);
    assert [RootDir, Normal("x"), Normal("a")] + [ParentDir] == from;
    FollowedOne(["x", "a"], ParentDir, []);
    NoSteps(["x"]);
    assert [ParentDir] + [] == [ParentDir] && ["x", "a"][..1] == ["x"];
    RelativeComponents("/x/a/..", "/x/c");
    OneUp("a");
    FollowedOne(["x"], ParentDir, [Normal("c")]);
    FollowedOne([], Normal("c"), []);
    NoSteps(["c"]);
    assert [ParentDir] + [Normal("c")] == [ParentDir, Normal("c")] && [Normal("c")] + [] == [Normal("c")];
    assert ["x"][..0] == [] && [] + ["c"] == ["c"];
  }

  lemma OneUp(name: string)
    ensures |Ups([Normal(name), ParentDir])| == 1 && Parents(1) == [ParentDir]
  {
    assert [Normal(name), ParentDir][..1] == [Normal(name)] && [Normal(name)][..0] == [];
    assert Ups([]) == [] && Ups([Normal(name)]) == [] + [".."];
    assert Parents(0) + [ParentDir] == [ParentDir];
  }

  lemma DotDotComponents()
    ensures Components("/x/a/..") == [RootDir, Normal("x"), Normal("a"), ParentDir]
    ensures Components("/x/c") == [RootDir, Normal("x"), Normal("c")]
  {
    hide Pieces, Inner;
    PiecesOne("");
    PiecesOne("x");
    PiecesOne("a");
    PiecesOne("c");
    PiecesOne("..");
    PiecesConcat("", "x");
    assert "" + "/" + "x" == "/x";
    PiecesConcat("/x", "a");
    assert "/x" + "/" + "a" == "/x/a";
    PiecesConcat("/x/a", "..");
    assert "/x/a" + "/" + ".." == "/x/a/..";
    PiecesConcat("/x", "c");
    assert "/x" + "/" + "c" == "/x/c";
    InnerOne("");
    InnerOne("..");
    InnerTwo("x", "a");
    InnerTwo("x", "c");
    InnerConcat([""], ["x", "a"]);
    InnerConcat(["", "x", "a"], [".."]);
    InnerConcat([""], ["x", "c"]);
    assert [""] + ["x", "a"] == ["", "x", "a"] && [""] + ["x", "c"] == ["", "x", "c"];
    assert ["", "x", "a"] + [".."] == ["", "x", "a", ".."];
    assert [Normal("x"), Normal("a")] + [ParentDir] == [Normal("x"), Normal("a"), ParentDir];
    assert [RootDir] + [Normal("x"), Normal("a"), ParentDir] == [RootDir, Normal("x"), Normal("a"), ParentDir];
    assert [RootDir] + [Normal("x"), Normal("c")] == [RootDir, Normal("x"), Normal("c")];
    assert ["", "x"] + ["a"] == ["", "x", "a"] && ["", "x"] + ["c"] == ["", "x", "c"] && [""] + ["x"] == ["", "x"];
  }

  lemma BackslashComponents()
    ensures Components("/a") == [RootDir, Normal("a")]
    ensures Components("/a/b\\c") == [RootDir, Normal("a"), Normal("b\\c")]
    ensures Components("b/c") == [Normal("b"), Normal("c")]
  {
    hide Pieces, Inner;
    PathPieces();
    InnerTwo("", "a");
    InnerTwo("a", "b\\c");
    InnerTwo("b", "c");
    InnerOne("");
    InnerConcat([""], ["a", "b\\c"]);
    assert [""] + ["a", "b\\c"] == ["", "a", "b\\c"];
  }

  // From `/a` to the file `b\c` in `/a`: the result is `b/c`, a file in a directory of `/a`.
  lemma BackslashMisses()
    ensures Straight("/a") && Straight("/a/b\\c")
    ensures Relative("/a", "/a/b\\c") == "b/c"
    ensures Followed(Location("/a"), Components("b/c")) == ["a", "b", "c"] && Location("/a/b\\c") == ["a", "b\\c"]
  {
    hide Components, CommonLen, Followed, Ups, Downs, PushedAll;
    BackslashComponents();
    var from, to := Components("/a"), Components("/a/b\\c");
    CommonExactly(from, to, 2);
    assert from[2..] == [] && to[2..] == [Normal("b\\c")];
    OneDown("b\\c");
    assert Slashed("b\\c") == "b/c";
    WalkTwo("a", "");
    WalkTwo("a", "b\\c");
    FollowedOne(["a"], Normal("b"), [Normal("c")]);
    FollowedOne(["a", "b"], Normal("c"), []);
    NoSteps(["a", "b", "c"]);
    assert ["a"] + ["b"] == ["a", "b"] && ["a", "b"] + ["c"] == ["a", "b", "c"];
    assert [Normal("b")] + [Normal("c")] == [Normal("b"), Normal("c")] && [Normal("c")] + [] == [Normal("c")];
  }

  lemma NoSteps(dir: seq<string>)
    ensures Followed(dir, []) == dir
  {
  }

  lemma WalkTwo(a: string, b: string)
    ensures Followed([], [RootDir, Normal(a)]) == [a] && Followed([], [RootDir, Normal(a), Normal(b)]) == [a, b]
  {
    hide Followed;
    FollowedOne([], RootDir, [Normal(a)]);
    FollowedOne([], Normal(a), []);
    FollowedOne([], RootDir, [Normal(a), Normal(b)]);
    FollowedOne([], Normal(a), [Normal(b)]);
    FollowedOne([a], Normal(b), []);
    NoSteps([a]);
    NoSteps([a, b]);
    assert [Normal(a)] + [] == [Normal(a)] && [Normal(b)] + [] == [Normal(b)];
    assert [RootDir] + [Normal(a)] == [RootDir, Normal(a)];
    assert [RootDir] + [Normal(a), Normal(b)] == [RootDir, Normal(a), Normal(b)]
        && [Normal(a)] + [Normal(b)] == [Normal(a), Normal(b)];
    assert [] + [a] == [a] && [a] + [b] == [a, b];
  }

  lemma PathPieces()
    ensures Pieces("/a") == ["", "a"] && Pieces("/a/b\\c") == ["", "a", "b\\c"] && Pieces("b/c") == ["b", "c"]
  {
    PiecesOne("");
    PiecesOne("a");
    PiecesOne("b");
    PiecesOne("c");
    PiecesOne("b\\c");
    PiecesConcat("", "a");
    assert "" + "/" + "a" == "/a";
    PiecesConcat("/a", "b\\c");
    assert "/a" + "/" + "b\\c" == "/a/b\\c";
    PiecesConcat("b", "c");
    assert "b" + "/" + "c" == "b/c";
  }

  lemma InnerTwo(a: string, b: string)
    requires Plain(b) && (a == "" || Plain(a))
    ensures Inner([a, b]) == if a == "" then [Normal(b)] else [Normal(a), Normal(b)]
  {
    InnerOne(a);
    InnerOne(b);
    InnerConcat([a], [b]);
    assert [a] + [b] == [a, b];
  }

  lemma OneDown(name: string)
    requires Plain(name)
    ensures PushedAll(PushedAll("", Ups([])), Downs([Normal(name)])) == name
  {
    assert [Normal(name)][..0] == [];
    assert Downs([Normal(name)]) == [] + [name] && [name][..0] == [];
    assert name[0] in name;
    assert "" + name == name;
  }

  lemma FollowedOne(dir: seq<string>, c: Component, rest: seq<Component>)
    ensures Followed(dir, [c] + rest) == Followed(Stepped(dir, c), rest)
  {
    assert ([c] + rest)[1..] == rest;
  }

  // ----- Nothing shorter leads there.

  function Distance(a: seq<string>, b: seq<string>): nat {
    |a| + |b| - 2 * CommonLen(a, b)
  }

  lemma {:induction false} CommonMost<T>(a: seq<T>, b: seq<T>, n: nat)
    requires n <= |a| && n <= |b| && a[..n] == b[..n]
    ensures n <= CommonLen(a, b)
    decreases n
  {
    if n > 0 {
      assert a[0] == a[..n][0] && b[0] == b[..n][0];
      assert a[1..][..n - 1] == a[..n][1..] && b[1..][..n - 1] == b[..n][1..];
      CommonMost(a[1..], b[1..], n - 1);
    }
  }

  lemma CommonExactly<T>(a: seq<T>, b: seq<T>, n: nat)
    requires n <= |a| && n <= |b| && a[..n] == b[..n] && (n == |a| || n == |b| || a[n] != b[n])
    ensures CommonLen(a, b) == n
  {
    CommonMost(a, b, n);
    var m := CommonLen(a, b);
    assert forall k :: 0 <= k < m ==> a[k] == a[..m][k] == b[..m][k] == b[k];
  }

  lemma StepCloser(dir: seq<string>, target: seq<string>, c: Component)
    requires c != RootDir
    ensures Distance(dir, target) <= Distance(Stepped(dir, c), target) + 1
  {
    hide CommonLen;
    var next := Stepped(dir, c);
    var m := CommonLen(next, target);
    if c.ParentDir? && dir != [] {
      assert next[..m] == dir[..m];
      CommonMost(dir, target, m);
    } else if c.Normal? && m > 0 {
      assert dir[..m - 1] == next[..m][..m - 1] == target[..m - 1];
      CommonMost(dir, target, m - 1);
    }
  }

  lemma {:induction false} PathAtLeast(dir: seq<string>, target: seq<string>, path: seq<Component>)
    requires RootDir !in path && Followed(dir, path) == target
    ensures Distance(dir, target) <= |path|
    decreases |path|
  {
    hide CommonLen;
    if path == [] {
      CommonMost(dir, target, |dir|);
    } else {
      StepCloser(dir, target, path[0]);
      PathAtLeast(Stepped(dir, path[0]), target, path[1..]);
    }
  }

  // The result is a relative path of as many steps as the two places are apart, so no relative path
  // from the one to the other is shorter.
  lemma RelativeIsShortest(fromAbs: string, toAbs: string, path: seq<Component>)
    requires Straight(fromAbs) && Straight(toAbs) && !BackslashBeyond(fromAbs, toAbs)
    requires RootDir !in path && Followed(Location(fromAbs), path) == Location(toAbs)
    ensures var result := Components(Relative(fromAbs, toAbs));
            RootDir !in result && |result| == Distance(Location(fromAbs), Location(toAbs)) <= |path|
  {
    hide Components, CommonLen, Followed, Relative, Parents, Location, BackslashBeyond, Plain, Distance, Names;
    Beyond(fromAbs, toAbs);
    RelativeComponents(fromAbs, toAbs);
    PathAtLeast(Location(fromAbs), Location(toAbs), path);
    var from, to := Components(fromAbs), Components(toAbs);
    var common := CommonLen(from, to);
    var up := from[common..];
    assert ParentDir !in up;
    BelowNormal(up);
    UpsAre(up);
    FollowedDown(Names(from[1..common]), up);
    ParentsCount(|Ups(up)|);
    SharedDistance(Names(from[1..common]), up, to[common..]);
  }

  lemma SharedDistance(shared: seq<string>, up: seq<Component>, down: seq<Component>)
    requires AllNormal(up) && AllNormal(down) && (up == [] || down == [] || up[0] != down[0])
    ensures Distance(shared + Names(up), shared + Names(down)) == |up| + |down|
  {
    hide CommonLen, Plain;
    SharedNames(shared, up, down);
  }

  // Where the components part, the names part.
  lemma SharedNames(shared: seq<string>, up: seq<Component>, down: seq<Component>)
    requires AllNormal(up) && AllNormal(down) && (up == [] || down == [] || up[0] != down[0])
    ensures CommonLen(shared + Names(up), shared + Names(down)) == |shared|
  {
    hide CommonLen, Plain;
    var here, there := shared + Names(up), shared + Names(down);
    assert here[..|shared|] == shared && there[..|shared|] == shared;
    if up != [] && down != [] {
      assert up[0] == Normal(here[|shared|]) && down[0] == Normal(there[|shared|]);
    }
    CommonExactly(here, there, |shared|);
  }
}
