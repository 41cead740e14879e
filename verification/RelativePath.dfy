/** The relative path written into generated imports (`relative_path_string` in nivasa-cli/src/main.rs),
    on Unix paths. */
module RelativePath {
  import opened Results

  // ----- Paths of the standard library.

  datatype Component = RootDir | CurDir | ParentDir | Normal(name: string)

  predicate IsAbsolute(path: string) {
    path != "" && path[0] == '/'
  }

  // The text between slashes.
  function Pieces(s: string): (pieces: seq<string>)
    ensures pieces != []
  {
    if s == "" then [""]
    else
      var rest := Pieces(s[1..]);
      if s[0] == '/' then [""] + rest else [[s[0]] + rest[0]] + rest[1..]
  }

  // Components after the first position: empty pieces and "." are dropped.
  function Inner(pieces: seq<string>): seq<Component> {
    if pieces == [] then []
    else
      var rest := Inner(pieces[1..]);
      if pieces[0] == "" || pieces[0] == "." then rest
      else if pieces[0] == ".." then [ParentDir] + rest
      else [Normal(pieces[0])] + rest
  }

  function Lead(path: string): seq<Component> {
    if IsAbsolute(path) then [RootDir] else if Pieces(path)[0] == "." then [CurDir] else []
  }

  // `Path::components`
  function Components(path: string): seq<Component> {
    Lead(path) + Inner(Pieces(path))
  }

  function OsStr(c: Component): string {
    match c
    case RootDir => "/"
    case CurDir => "."
    case ParentDir => ".."
    case Normal(name) => name
  }

  // `PathBuf::push`, and `Path::join` on the base's copy.
  function Pushed(path: string, part: string): string {
    if IsAbsolute(part) then part
    else if path != "" && path[|path| - 1] != '/' then path + "/" + part
    else path + part
  }

  function PushedAll(path: string, parts: seq<string>): string {
    if parts == [] then path
    else Pushed(PushedAll(path, parts[..|parts| - 1]), parts[|parts| - 1])
  }

  // `replace('\\', "/")`
  function Slashed(s: string): (r: string)
    ensures |r| == |s|
    ensures forall i :: 0 <= i < |s| ==> r[i] == if s[i] == '\\' then '/' else s[i]
  {
    seq(|s|, i requires 0 <= i < |s| => if s[i] == '\\' then '/' else s[i])
  }

  // ----- The relative path as a function of the two component lists.

  function CommonLen<T(==)>(a: seq<T>, b: seq<T>): (n: nat)
    ensures n <= |a| && n <= |b| && a[..n] == b[..n]
    ensures n < |a| && n < |b| ==> a[n] != b[n]
  {
    if a == [] || b == [] || a[0] != b[0] then 0 else 1 + CommonLen(a[1..], b[1..])
  }

  function Ups(from: seq<Component>): seq<string> {
    if from == [] then []
    else Ups(from[..|from| - 1]) + (if from[|from| - 1].Normal? then [".."] else [])
  }

  function Downs(to: seq<Component>): seq<string> {
    if to == [] then [] else Downs(to[..|to| - 1]) + [OsStr(to[|to| - 1])]
  }

  function Relative(fromAbs: string, toAbs: string): string {
    var from, to := Components(fromAbs), Components(toAbs);
    var common := CommonLen(from, to);
    if common == 0 then Slashed(toAbs)
    else Slashed(PushedAll(PushedAll("", Ups(from[common..])), Downs(to[common..])))
  }

  function MadeAbsolute(cwd: Result<string, string>, path: string): Result<string, string> {
    if IsAbsolute(path) then Ok(path) else match cwd case Ok(dir) => Ok(Pushed(dir, path)) case Err(e) => Err(e)
  }

  // `relative_path_string`; `cwd` is what the operating system says the current directory is.
  method RelativePathString(cwd: Result<string, string>, fromDir: string, toFile: string)
    returns (r: Result<string, string>)
    ensures var from, to := MadeAbsolute(cwd, fromDir), MadeAbsolute(cwd, toFile);
            r == if from.Err? then from else if to.Err? then to else Ok(Relative(from.value, to.value))
  {
    hide Components, Slashed, Ups, Downs, Pushed, PushedAll, CommonLen;
    var fromAbs: string := fromDir;
    if !IsAbsolute(fromDir) {
      if cwd.Err? {
        return cwd;
      }
      fromAbs := Pushed(cwd.value, fromDir);
    }
    var toAbs: string := toFile;
    if !IsAbsolute(toFile) {
      if cwd.Err? {
        return cwd;
      }
      toAbs := Pushed(cwd.value, toFile);
    }
    var from, to := Components(fromAbs), Components(toAbs);
    var common := 0;
    assert from[0..] == from && to[0..] == to;
    while common < |from| && common < |to| && from[common] == to[common]
      invariant common <= |from| && common <= |to|
      invariant CommonLen(from, to) == common + CommonLen(from[common..], to[common..])
    {
      CommonStep(from, to, common);
      common := common + 1;
    }
    CommonEnd(from[common..], to[common..]);
    if common == 0 {
      return Ok(Slashed(toAbs));
    }
    var relative := "";
    var up, down := from[common..], to[common..];
    NonePushed("");
    assert up[..0] == [] && down[..0] == [];
    for i := 0 to |up|
      invariant relative == PushedAll("", Ups(up[..i]))
    {
      UpsSnoc("", up, i);
      if up[i].Normal? {
        relative := Pushed(relative, "..");
      }
    }
    assert up[..|up|] == up;
    ghost var climbed := relative;
    NonePushed(climbed);
    for i := 0 to |down|
      invariant relative == PushedAll(climbed, Downs(down[..i]))
    {
      DownsSnoc(climbed, down, i);
      relative := Pushed(relative, OsStr(down[i]));
    }
    assert down[..|down|] == down;
    r := Ok(Slashed(relative));
  }

  lemma CommonStep(a: seq<Component>, b: seq<Component>, n: nat)
    requires n < |a| && n < |b| && a[n] == b[n]
    ensures CommonLen(a[n..], b[n..]) == 1 + CommonLen(a[n + 1..], b[n + 1..])
  {
    assert a[n..][1..] == a[n + 1..] && b[n..][1..] == b[n + 1..];
  }

  lemma CommonEnd(a: seq<Component>, b: seq<Component>)
    requires a == [] || b == [] || a[0] != b[0]
    ensures CommonLen(a, b) == 0
  {
  }

  lemma NonePushed(path: string)
    ensures PushedAll(path, Ups([])) == path && PushedAll(path, Downs([])) == path
  {
  }

  lemma PushedSnoc(path: string, parts: seq<string>, part: string)
    ensures PushedAll(path, parts + [part]) == Pushed(PushedAll(path, parts), part)
  {
    assert (parts + [part])[..|parts|] == parts;
  }

  lemma UpsSnoc(path: string, up: seq<Component>, i: nat)
    requires i < |up|
    ensures var before := PushedAll(path, Ups(up[..i]));
            PushedAll(path, Ups(up[..i + 1])) == if up[i].Normal? then Pushed(before, "..") else before
  {
    hide Pushed, PushedAll;
    assert up[..i + 1][..i] == up[..i];
    PushedSnoc(path, Ups(up[..i]), "..");
    assert Ups(up[..i]) + [] == Ups(up[..i]);
  }

  lemma DownsSnoc(path: string, down: seq<Component>, i: nat)
    requires i < |down|
    ensures PushedAll(path, Downs(down[..i + 1])) == Pushed(PushedAll(path, Downs(down[..i])), OsStr(down[i]))
  {
    hide Pushed, PushedAll;
    assert down[..i + 1][..i] == down[..i];
    PushedSnoc(path, Downs(down[..i]), OsStr(down[i]));
  }

  // ----- Walking: where a path leads from a directory, given as the names below the root.

  function Stepped(dir: seq<string>, c: Component): seq<string> {
    match c
    case RootDir => []
    case CurDir => dir
    case ParentDir => if dir == [] then [] else dir[..|dir| - 1]
    case Normal(name) => dir + [name]
  }

  function Followed(dir: seq<string>, path: seq<Component>): seq<string>
    decreases |path|
  {
    if path == [] then dir else Followed(Stepped(dir, path[0]), path[1..])
  }

  lemma {:induction false} FollowedConcat(dir: seq<string>, a: seq<Component>, b: seq<Component>)
    ensures Followed(dir, a + b) == Followed(Followed(dir, a), b)
    decreases |a|
  {
    if a == [] {
      assert a + b == b;
    } else {
      assert (a + b)[1..] == a[1..] + b;
      FollowedConcat(Stepped(dir, a[0]), a[1..], b);
    }
  }
}
