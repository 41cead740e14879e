/** Where a path as written leads, piece by piece, and the relative path between any two paths. */
module RelativePlaces {
  import opened Results
  import opened RelativePath
  import opened RelativePathLaws

  // Where a path leads from a directory.
  function Leads(dir: seq<string>, path: string): seq<string> {
    Followed(dir, Components(path))
  }

  // One piece between slashes: nothing and `.` stay, `..` goes up but not past the root, a name goes down.
  function To(dir: seq<string>, piece: string): seq<string> {
    if piece == "" || piece == "." then dir
    else if piece == ".." then if dir == [] then [] else dir[..|dir| - 1]
    else dir + [piece]
  }

  lemma FollowedLast(dir: seq<string>, cs: seq<Component>, piece: string)
    ensures Followed(dir, cs + Inner([piece])) == To(Followed(dir, cs), piece)
  {
    FollowedConcat(dir, cs, Inner([piece]));
    InnerOne(piece);
    var there := Followed(dir, cs);
    NoSteps(there);
    NoSteps(To(there, piece));
    if Inner([piece]) != [] {
      var c := Inner([piece])[0];
      assert Inner([piece]) == [c] + [];
      FollowedOne(there, c, []);
    }
  }

  lemma LeadSteps(dir: seq<string>, path: string)
    ensures Leads(dir, path) == Followed(if IsAbsolute(path) then [] else dir, Inner(Pieces(path)))
  {
    var inner := Inner(Pieces(path));
    assert [] + inner == inner;
    FollowedOne(dir, RootDir, inner);
    FollowedOne(dir, CurDir, inner);
  }

  // A path is followed piece by piece.
  lemma PieceByPiece(dir: seq<string>, path: string, piece: string)
    requires Lacks(piece, '/')
    ensures Leads(dir, "") == dir
    ensures Leads(dir, piece) == To(dir, piece)
    ensures Leads(dir, "/" + piece) == To([], piece)
    ensures path != "" ==> Leads(dir, path + "/" + piece) == To(Leads(dir, path), piece)
  {
    hide Components, Pieces, Inner, Followed, Leads;
    PiecesOne(piece);
    PiecesOne("");
    LeadSteps(dir, "");
    LeadSteps(dir, piece);
    LeadSteps(dir, path);
    LeadSteps(dir, path + "/" + piece);
    LeadSteps(dir, "/" + piece);
    PiecesConcat("", piece);
    assert "" + "/" + piece == "/" + piece;
    PiecesConcat(path, piece);
    InnerConcat([""], [piece]);
    InnerConcat(Pieces(path), [piece]);
    InnerOne("");
    NoSteps(dir);
    NoSteps([]);
    assert [] + Inner([piece]) == Inner([piece]);
    FollowedLast(dir, [], piece);
    FollowedLast([], [], piece);
    FollowedLast(if IsAbsolute(path) then [] else dir, Inner(Pieces(path)), piece);
    if piece != "" {
      assert piece[0] in piece;
    }
  }

  // A relative path joined to the current directory leads where it leads from there; an absolute one does
  // not ask for the current directory, and a relative one fails with it.
  lemma MadeAbsoluteLeads(cwd: Result<string, string>, path: string)
    ensures path != "" && path[0] == '/' ==> MadeAbsolute(cwd, path) == Ok(path)
    ensures (path == "" || path[0] != '/') && cwd.Err? ==> MadeAbsolute(cwd, path) == Err(cwd.error)
    ensures (path == "" || path[0] != '/') && cwd.Ok? && IsAbsolute(cwd.value) ==>
              && MadeAbsolute(cwd, path).Ok? && IsAbsolute(MadeAbsolute(cwd, path).value)
              && Leads([], MadeAbsolute(cwd, path).value) == Leads(Leads([], cwd.value), path)
  {
    hide Components, Pieces, Inner, Followed, Leads;
    if (path == "" || path[0] != '/') && cwd.Ok? && IsAbsolute(cwd.value) {
      var dir := cwd.value;
      var joined := Pushed(dir, path);
      LeadSteps([], dir);
      LeadSteps([], joined);
      LeadSteps(Leads([], dir), path);
      if dir[|dir| - 1] != '/' {
        PiecesConcat(dir, path);
        InnerConcat(Pieces(dir), Pieces(path));
      } else {
        var front := dir[..|dir| - 1];
        assert dir == front + "/" + "" && joined == front + "/" + path;
        PiecesConcat(front, path);
        PiecesConcat(front, "");
        PiecesOne("");
        InnerConcat(Pieces(front), Pieces(path));
        InnerConcat(Pieces(front), [""]);
        InnerOne("");
        assert Inner(Pieces(dir)) == Inner(Pieces(front)) + [] == Inner(Pieces(front));
      }
      FollowedConcat([], Inner(Pieces(dir)), Inner(Pieces(path)));
    }
  }

  // The whole of it, from any current directory: following the result from where `fromDir` leads ends where
  // `toFile` leads, exactly when no backslash is turned and every upward step is met.
  lemma AnywhereReaches(dir: string, fromDir: string, toFile: string)
    requires IsAbsolute(dir)
    ensures var from, to := MadeAbsolute(Ok(dir), fromDir), MadeAbsolute(Ok(dir), toFile);
            && from.Ok? && to.Ok?
            && (Straight(to.value) ==>
                  var here := Leads([], dir);
                  Leads(Leads(here, fromDir), Relative(from.value, to.value)) == Leads(here, toFile)
                  <==> !BackslashBeyond(from.value, to.value) && ClimbsRight(from.value, to.value))
  {
    hide Components, Followed, Relative, BackslashBeyond, ClimbsRight, Straight, Pushed, Leads;
    var here := Leads([], dir);
    var from, to := MadeAbsolute(Ok(dir), fromDir), MadeAbsolute(Ok(dir), toFile);
    MadeAbsoluteLeads(Ok(dir), fromDir);
    MadeAbsoluteLeads(Ok(dir), toFile);
    FromAnywhere(here, fromDir);
    FromAnywhere(here, toFile);
    if Straight(to.value) {
      RelativeReaches(from.value, to.value);
      AreLeads(from.value, Relative(from.value, to.value));
      AreLeads(to.value, "");
    }
  }

  lemma FromAnywhere(here: seq<string>, path: string)
    ensures IsAbsolute(path) ==> Leads(here, path) == Leads([], path)
  {
    hide Components, Followed, Leads;
    LeadSteps(here, path);
    LeadSteps([], path);
  }

  lemma AreLeads(path: string, onward: string)
    ensures Location(path) == Leads([], path)
    ensures Followed(Location(path), Components(onward)) == Leads(Leads([], path), onward)
  {
  }
}
