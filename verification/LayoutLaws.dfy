/** What the drawing of a statechart shows: which states have a box, where, and what the edges join. */
module LayoutLaws {
  import opened Results
  import opened StatechartLayout

  // The parser stores each state under its own id.
  predicate WellKeyed(doc: Document) {
    forall id :: id in doc.states ==> doc.states[id].id == id
  }

  // A way down from a top-level state through existing states, from parent to child.
  predicate Chain(doc: Document, path: seq<string>) {
    && path != [] && path[0] in doc.topLevel
    && (forall i :: 0 <= i < |path| ==> path[i] in doc.states)
    && (forall i :: 0 <= i < |path| - 1 ==> path[i + 1] in doc.states[path[i]].children)
  }

  predicate LeadsTo(doc: Document, path: seq<string>, id: string) {
    Chain(doc, path) && path[|path| - 1] == id
  }

  ghost predicate Reachable(doc: Document, id: string) {
    exists path :: LeadsTo(doc, path, id)
  }

  predicate Shows(boxes: seq<Box>, i: int, id: string) {
    0 <= i < |boxes| && boxes[i].title == id
  }

  function Column(box: Box): int {
    (box.x - LEFT) / COLUMN
  }

  // Box i is its state's box, in its own row.
  predicate OwnRow(doc: Document, boxes: seq<Box>, i: nat)
    requires i < |boxes|
  {
    var box := boxes[i];
    && box.title in doc.states && Column(box) >= 0
    && box == BoxOf(doc.states[box.title], Column(box), TOP + ROW * i)
  }

  // Box j is the nearest box above row i that lies left of `column`; it is one column to the left.
  predicate NearestLeft(boxes: seq<Box>, j: int, i: nat, column: int)
    requires i <= |boxes|
  {
    && 0 <= j < i && Column(boxes[j]) == column - 1
    && forall k :: j < k < i ==> Column(boxes[k]) >= column
  }

  predicate Parent(doc: Document, boxes: seq<Box>, j: int, i: nat)
    requires i < |boxes|
  {
    && NearestLeft(boxes, j, i, Column(boxes[i]))
    && boxes[j].title in doc.states && boxes[i].title in doc.states[boxes[j].title].children
  }

  // A box in the first column is a top-level state's; any other is a child of the nearest box above it
  // that lies further left.
  ghost predicate Nested(doc: Document, boxes: seq<Box>, i: nat)
    requires i < |boxes|
  {
    if Column(boxes[i]) == 0 then boxes[i].title in doc.topLevel
    else exists j :: Parent(doc, boxes, j, i)
  }

  predicate Distinct(boxes: seq<Box>) {
    forall i, j :: 0 <= i < j < |boxes| ==> boxes[i].title != boxes[j].title
  }

  // ----- What every step of the walk keeps.

  ghost predicate Proper(doc: Document, s: Sheet) {
    && s.y == TOP + ROW * |s.ordered|
    && (forall i :: 0 <= i < |s.ordered| ==> OwnRow(doc, s.ordered, i) && Nested(doc, s.ordered, i))
    && Distinct(s.ordered)
    && (forall i :: 0 <= i < |s.ordered| ==> s.ordered[i].title in s.visited)
    && (forall id :: id in s.visited && id in doc.states ==> exists i :: Shows(s.ordered, i, id))
  }

  predicate Under(doc: Document, ids: seq<string>, depth: nat, boxes: seq<Box>, j: int) {
    && NearestLeft(boxes, j, |boxes|, depth) && boxes[j].title in doc.states
    && forall k :: 0 <= k < |ids| ==> ids[k] in doc.states[boxes[j].title].children
  }

  // The ids are about to be visited at this depth: top-level ids, or children of the open box.
  ghost predicate Ready(doc: Document, ids: seq<string>, depth: nat, boxes: seq<Box>) {
    if depth == 0 then forall k :: 0 <= k < |ids| ==> ids[k] in doc.topLevel
    else exists j :: Under(doc, ids, depth, boxes, j)
  }

  predicate Extends(a: seq<Box>, b: seq<Box>, depth: nat) {
    a <= b && forall k :: |a| <= k < |b| ==> Column(b[k]) >= depth
  }

  lemma ReadyStays(doc: Document, ids: seq<string>, depth: nat, a: seq<Box>, b: seq<Box>)
    requires ids != [] && Ready(doc, ids, depth, a) && Extends(a, b, depth)
    ensures Ready(doc, ids[1..], depth, b)
  {
    hide Column;
    if depth > 0 {
      var j :| Under(doc, ids, depth, a, j);
      assert Under(doc, ids[1..], depth, b, j);
    }
  }

  lemma ReadyOne(doc: Document, ids: seq<string>, depth: nat, boxes: seq<Box>)
    requires ids != [] && Ready(doc, ids, depth, boxes)
    ensures Ready(doc, [ids[0]], depth, boxes)
  {
    hide Column;
    if depth > 0 {
      var j :| Under(doc, ids, depth, boxes, j);
      assert Under(doc, [ids[0]], depth, boxes, j);
    }
  }

  lemma NestedStays(doc: Document, a: seq<Box>, b: seq<Box>, i: nat)
    requires a <= b && i < |a| && Nested(doc, a, i)
    ensures Nested(doc, b, i)
  {
    hide Column;
    if Column(a[i]) != 0 {
      var j :| Parent(doc, a, j, i);
      assert Parent(doc, b, j, i);
    }
  }

  lemma NestedNew(doc: Document, id: string, depth: nat, boxes: seq<Box>, box: Box)
    requires Ready(doc, [id], depth, boxes) && Column(box) == depth && box.title == id
    ensures Nested(doc, boxes + [box], |boxes|)
  {
    hide Column;
    var all := boxes + [box];
    assert [id][0] == id;
    if depth > 0 {
      var j :| Under(doc, [id], depth, boxes, j);
      assert Parent(doc, all, j, |boxes|);
    }
  }

  lemma BoxColumn(state: StateNode, depth: nat, y: int)
    ensures Column(BoxOf(state, depth, y)) == depth
  {
  }

  lemma PlacedProper(doc: Document, id: string, depth: nat, s: Sheet)
    requires WellKeyed(doc) && Proper(doc, s)
    requires id in doc.states && id !in s.visited && Ready(doc, [id], depth, s.ordered)
    ensures var placed := Placed(Marked(s, id), BoxOf(doc.states[id], depth, s.y));
            && Proper(doc, placed) && Extends(s.ordered, placed.ordered, depth)
            && Ready(doc, doc.states[id].children, depth + 1, placed.ordered)
  {
    hide Nested, Ready, Column, Width, BoxOf;
    var box := BoxOf(doc.states[id], depth, s.y);
    var placed := Placed(Marked(s, id), box);
    BoxTitle(doc.states[id], depth, s.y);
    BoxColumn(doc.states[id], depth, s.y);
    NestedNew(doc, id, depth, s.ordered, box);
    var n := |s.ordered|;
    assert OwnRow(doc, placed.ordered, n);
    forall i | 0 <= i < n + 1 ensures OwnRow(doc, placed.ordered, i) && Nested(doc, placed.ordered, i) {
      if i < n {
        assert OwnRow(doc, s.ordered, i);
        NestedStays(doc, s.ordered, placed.ordered, i);
      }
    }
    forall other | other in placed.visited && other in doc.states
      ensures exists i :: Shows(placed.ordered, i, other)
    {
      if other == id {
        assert Shows(placed.ordered, n, id);
      } else {
        var i :| Shows(s.ordered, i, other);
        assert Shows(placed.ordered, i, other);
      }
    }
    assert Under(doc, doc.states[id].children, depth + 1, placed.ordered, n);
    ReadyUnder(doc, doc.states[id].children, depth + 1, placed.ordered, n);
  }

  lemma ReadyUnder(doc: Document, ids: seq<string>, depth: nat, boxes: seq<Box>, j: int)
    requires depth > 0 && Under(doc, ids, depth, boxes, j)
    ensures Ready(doc, ids, depth, boxes)
  {
  }

  lemma BoxTitle(state: StateNode, depth: nat, y: int)
    ensures BoxOf(state, depth, y).title == state.id && BoxOf(state, depth, y).height == HEIGHT
  {
  }

  lemma MarkedProper(doc: Document, id: string, s: Sheet)
    requires Proper(doc, s) && id !in doc.states
    ensures Proper(doc, Marked(s, id))
  {
    hide OwnRow, Nested;
  }

  lemma {:induction false} VisitKeeps(doc: Document, id: string, depth: nat, s: Sheet)
    requires WellKeyed(doc) && Proper(doc, s) && Ready(doc, [id], depth, s.ordered)
    ensures var r := Visited(doc, id, depth, s);
            Proper(doc, r) && Extends(s.ordered, r.ordered, depth)
    decreases Unseen(doc, s), 0
  {
    hide Proper, Ready, Column, BoxOf, VisitedAll;
    if id !in s.visited {
      if id !in doc.states {
        MarkedProper(doc, id, s);
      } else {
        var placed := Placed(Marked(s, id), BoxOf(doc.states[id], depth, s.y));
        PlacedProper(doc, id, depth, s);
        FewerUnseen(doc, s, placed);
        VisitAllKeeps(doc, doc.states[id].children, depth + 1, placed);
      }
    }
  }

  lemma {:induction false} VisitAllKeeps(doc: Document, ids: seq<string>, depth: nat, s: Sheet)
    requires WellKeyed(doc) && Proper(doc, s) && Ready(doc, ids, depth, s.ordered)
    ensures var r := VisitedAll(doc, ids, depth, s);
            Proper(doc, r) && Extends(s.ordered, r.ordered, depth)
    decreases Unseen(doc, s), |ids|
  {
    hide Proper, Ready, Column, Visited;
    if ids != [] {
      var first := Visited(doc, ids[0], depth, s);
      ReadyOne(doc, ids, depth, s.ordered);
      VisitKeeps(doc, ids[0], depth, s);
      FewerUnseen(doc, s, first);
      ReadyStays(doc, ids, depth, s.ordered, first.ordered);
      VisitAllKeeps(doc, ids[1..], depth, first);
    }
  }

  // The whole drawing: rows in order, distinct states, every box under its parent.
  lemma LaidProper(doc: Document)
    requires WellKeyed(doc)
    ensures Proper(doc, Laid(doc))
  {
    VisitAllKeeps(doc, doc.topLevel, 0, BLANK);
  }

  // ----- Nothing reachable is missed.

  predicate Closed(doc: Document, before: set<string>, after: set<string>) {
    forall id, child ::
        id in after && id !in before && id in doc.states && child in doc.states[id].children ==> child in after
  }

  lemma {:induction false} VisitCloses(doc: Document, id: string, depth: nat, s: Sheet)
    ensures var r := Visited(doc, id, depth, s);
            id in r.visited && Closed(doc, s.visited, r.visited)
    decreases Unseen(doc, s), 0
  {
    hide BoxOf, VisitedAll;
    if id !in s.visited && id in doc.states {
      var placed := Placed(Marked(s, id), BoxOf(doc.states[id], depth, s.y));
      FewerUnseen(doc, s, placed);
      VisitAllCloses(doc, doc.states[id].children, depth + 1, placed);
    }
  }

  lemma {:induction false} VisitAllCloses(doc: Document, ids: seq<string>, depth: nat, s: Sheet)
    ensures var r := VisitedAll(doc, ids, depth, s);
            (forall k :: 0 <= k < |ids| ==> ids[k] in r.visited) && Closed(doc, s.visited, r.visited)
    decreases Unseen(doc, s), |ids|
  {
    hide Visited;
    if ids != [] {
      var first := Visited(doc, ids[0], depth, s);
      VisitCloses(doc, ids[0], depth, s);
      FewerUnseen(doc, s, first);
      VisitAllCloses(doc, ids[1..], depth, first);
      forall k | 0 <= k < |ids| ensures ids[k] in VisitedAll(doc, ids, depth, s).visited {
        if k > 0 { assert ids[k] == ids[1..][k - 1]; }
      }
    }
  }

  lemma {:induction false} ChainVisited(doc: Document, path: seq<string>)
    requires Chain(doc, path)
    ensures path[|path| - 1] in Laid(doc).visited
    decreases |path|
  {
    VisitAllCloses(doc, doc.topLevel, 0, BLANK);
    if |path| > 1 {
      var shorter := path[..|path| - 1];
      assert Chain(doc, shorter);
      ChainVisited(doc, shorter);
    }
  }

  // ----- Nothing else is drawn.

  // Climbing from box to parent gives a way down to the box, as long as the box is indented.
  lemma {:induction false} BoxChain(doc: Document, boxes: seq<Box>, i: nat) returns (path: seq<string>)
    requires i < |boxes|
    requires forall k :: 0 <= k < |boxes| ==> OwnRow(doc, boxes, k) && Nested(doc, boxes, k)
    ensures LeadsTo(doc, path, boxes[i].title) && |path| == Column(boxes[i]) + 1
    decreases i
  {
    hide Column, BoxOf;
    assert OwnRow(doc, boxes, i) && Nested(doc, boxes, i);
    if Column(boxes[i]) == 0 {
      path := [boxes[i].title];
    } else {
      var j :| Parent(doc, boxes, j, i);
      var up := BoxChain(doc, boxes, j);
      path := up + [boxes[i].title];
    }
  }

  // The boxes show exactly the states reachable from the top-level states, each once.
  lemma ShowsExactlyReachable(doc: Document)
    requires WellKeyed(doc)
    ensures Distinct(Laid(doc).ordered)
    ensures forall id :: (exists i :: Shows(Laid(doc).ordered, i, id)) <==> Reachable(doc, id)
  {
    hide Laid, OwnRow, Nested, Chain, Column;
    var boxes := Laid(doc).ordered;
    LaidProper(doc);
    forall id ensures (exists i :: Shows(boxes, i, id)) <==> Reachable(doc, id) {
      if exists i :: Shows(boxes, i, id) {
        var i :| Shows(boxes, i, id);
        var path := BoxChain(doc, boxes, i);
      }
      if Reachable(doc, id) {
        var path :| LeadsTo(doc, path, id);
        ChainVisited(doc, path);
        ChainEnds(doc, path);
      }
    }
  }

  lemma ChainEnds(doc: Document, path: seq<string>)
    requires Chain(doc, path)
    ensures path[|path| - 1] in doc.states
  {
  }

  // Each box stands in its own row, clear of every other, as many columns in as some way down to its
  // state is long; its parent is the nearest box above and to the left.
  lemma BoxesApart(doc: Document, i: nat)
    requires WellKeyed(doc) && i < |Laid(doc).ordered|
    ensures var boxes := Laid(doc).ordered;
            && OwnRow(doc, boxes, i) && Nested(doc, boxes, i)
            && (exists path :: LeadsTo(doc, path, boxes[i].title) && boxes[i].x == LEFT + COLUMN * (|path| - 1))
            && (forall j :: i < j < |boxes| ==> boxes[i].y + boxes[i].height < boxes[j].y)
  {
    hide Laid, Nested, Width;
    var boxes := Laid(doc).ordered;
    LaidProper(doc);
    assert OwnRow(doc, boxes, i);
    var path := BoxChain(doc, boxes, i);
    forall j | i < j < |boxes| ensures boxes[i].y + boxes[i].height < boxes[j].y {
      assert OwnRow(doc, boxes, j);
    }
  }

  // ----- Edges.

  lemma {:induction false} NodeMapIs(nodes: seq<Box>)
    requires Distinct(nodes)
    ensures forall id :: id in NodeMap(nodes) <==> exists i :: Shows(nodes, i, id)
    ensures forall i ::
        0 <= i < |nodes| ==> nodes[i].title in NodeMap(nodes) && NodeMap(nodes)[nodes[i].title] == nodes[i]
  {
    if nodes != [] {
      var n := |nodes| - 1;
      NodeMapIs(nodes[..n]);
      forall id ensures id in NodeMap(nodes) <==> exists i :: Shows(nodes, i, id) {
        if id == nodes[n].title {
          assert Shows(nodes, n, id);
        } else if id in NodeMap(nodes) {
          var i :| Shows(nodes[..n], i, id);
          assert Shows(nodes, i, id);
        } else {
          assert forall i :: Shows(nodes, i, id) ==> i != n && Shows(nodes[..n], i, id);
        }
      }
      forall i | 0 <= i < |nodes|
          ensures nodes[i].title in NodeMap(nodes) && NodeMap(nodes)[nodes[i].title] == nodes[i] {
        if i < n { assert nodes[i] == nodes[..n][i]; }
      }
    }
  }

  // Transition t of the state in box i leads to the state in box j.
  predicate Joins(doc: Document, nodes: seq<Box>, i: int, j: int, t: int) {
    && 0 <= i < |nodes| && 0 <= j < |nodes| && nodes[i].title in doc.states
    && 0 <= t < |doc.states[nodes[i].title].transitions|
    && doc.states[nodes[i].title].transitions[t].target != []
    && doc.states[nodes[i].title].transitions[t].target[0] == nodes[j].title
  }

  // The edge begins in the middle of the right side of box i, ends in the middle of the left side of
  // box j, and bears the name of the event.
  predicate Draws(doc: Document, nodes: seq<Box>, e: Edge, i: int, j: int, t: int) {
    && Joins(doc, nodes, i, j, t)
    && e.fromX == nodes[i].x + nodes[i].width && e.fromY == nodes[i].y + 27
    && e.toX == nodes[j].x && e.toY == nodes[j].y + 27
    && var event := doc.states[nodes[i].title].transitions[t].event;
       (event == None && e.title == "eventless") || event == Some(e.title)
  }

  predicate Runs(doc: Document, nodes: seq<Box>, e: Edge, i: int, j: int, t: int) {
    Joins(doc, nodes, i, j, t) && e == EdgeOf(nodes[i], nodes[j], doc.states[nodes[i].title].transitions[t])
  }

  lemma RunsAsDrawn(doc: Document, nodes: seq<Box>, e: Edge, i: int, j: int, t: int)
    requires forall k :: 0 <= k < |nodes| ==> OwnRow(doc, nodes, k)
    ensures Runs(doc, nodes, e, i, j, t) <==> Draws(doc, nodes, e, i, j, t)
  {
    hide Column, Width, Subtitle;
    if Joins(doc, nodes, i, j, t) {
      assert OwnRow(doc, nodes, i) && OwnRow(doc, nodes, j);
    }
  }

  lemma {:induction false} EdgesFromAre(from: Box, ts: seq<Transition>, nodes: map<string, Box>, e: Edge)
    ensures e in EdgesFrom(from, ts, nodes) <==>
            exists t :: 0 <= t < |ts| && ts[t].target != [] && ts[t].target[0] in nodes
                && e == EdgeOf(from, nodes[ts[t].target[0]], ts[t])
  {
    hide EdgeOf;
    if ts != [] {
      var n := |ts| - 1;
      EdgesFromAre(from, ts[..n], nodes, e);
      if e in EdgesFrom(from, ts[..n], nodes) {
        var t :| 0 <= t < n && ts[..n][t].target != [] && ts[..n][t].target[0] in nodes
            && e == EdgeOf(from, nodes[ts[..n][t].target[0]], ts[..n][t]);
        assert ts[t] == ts[..n][t];
      }
      if t :| && 0 <= t < n && ts[t].target != [] && ts[t].target[0] in nodes
              && e == EdgeOf(from, nodes[ts[t].target[0]], ts[t]) {
        assert ts[..n][t] == ts[t];
      }
    }
  }

  lemma {:induction false} EdgesOfAre(states: seq<StateNode>, nodes: map<string, Box>, e: Edge)
    ensures e in EdgesOf(states, nodes) <==> exists k :: 0 <= k < |states| && e in EdgesOfState(states[k], nodes)
  {
    hide EdgesOfState;
    if states != [] {
      var n := |states| - 1;
      EdgesOfAre(states[..n], nodes, e);
      if e in EdgesOf(states[..n], nodes) {
        var k :| 0 <= k < n && e in EdgesOfState(states[..n][k], nodes);
        assert states[k] == states[..n][k];
      }
      if k :| 0 <= k < n && e in EdgesOfState(states[k], nodes) {
        assert states[..n][k] == states[k];
      }
    }
  }

  // The document's states, in some order.
  predicate InSomeOrder(doc: Document, states: seq<StateNode>) {
    && (forall k :: 0 <= k < |states| ==> states[k].id in doc.states && doc.states[states[k].id] == states[k])
    && (forall id :: id in doc.states ==> doc.states[id] in states)
    && (forall i, j :: 0 <= i < j < |states| ==> states[i].id != states[j].id)
  }

  lemma EdgesRun(doc: Document, states: seq<StateNode>, e: Edge)
    requires WellKeyed(doc) && InSomeOrder(doc, states)
    ensures var nodes := Laid(doc).ordered;
            e in EdgesOf(states, NodeMap(nodes)) <==> exists i, j, t :: Runs(doc, nodes, e, i, j, t)
  {
    hide Laid, EdgesOf, EdgesFrom, EdgeOf, OwnRow, Nested;
    LaidProper(doc);
    var nodes := Laid(doc).ordered;
    var byTitle := NodeMap(nodes);
    NodeMapIs(nodes);
    EdgesOfAre(states, byTitle, e);
    if e in EdgesOf(states, byTitle) {
      var k :| 0 <= k < |states| && e in EdgesOfState(states[k], byTitle);
      var ts := states[k].transitions;
      var i :| Shows(nodes, i, states[k].id);
      EdgesFromAre(nodes[i], ts, byTitle, e);
      var t :| 0 <= t < |ts| && ts[t].target != [] && ts[t].target[0] in byTitle
          && e == EdgeOf(nodes[i], byTitle[ts[t].target[0]], ts[t]);
      var j :| Shows(nodes, j, ts[t].target[0]);
      assert Runs(doc, nodes, e, i, j, t);
    }
    if i, j, t :| Runs(doc, nodes, e, i, j, t) {
      var state := doc.states[nodes[i].title];
      var k :| 0 <= k < |states| && states[k] == state;
      EdgesFromAre(nodes[i], state.transitions, byTitle, e);
      assert e in EdgesOfState(states[k], byTitle);
    }
  }

  // An edge is drawn exactly for a transition of a boxed state whose first target has a box: from the
  // right side of the one to the left side of the other.
  lemma EdgesJoinBoxes(doc: Document, states: seq<StateNode>, e: Edge)
    requires WellKeyed(doc) && InSomeOrder(doc, states)
    ensures var nodes := Laid(doc).ordered;
            e in EdgesOf(states, NodeMap(nodes)) <==> exists i, j, t :: Draws(doc, nodes, e, i, j, t)
  {
    hide Laid, EdgesOf, NodeMap, OwnRow, Nested, Runs, Draws, InSomeOrder;
    EdgesRun(doc, states, e);
    LaidProper(doc);
    var nodes := Laid(doc).ordered;
    forall i, j, t ensures Runs(doc, nodes, e, i, j, t) <==> Draws(doc, nodes, e, i, j, t) {
      RunsAsDrawn(doc, nodes, e, i, j, t);
    }
  }

  // ----- One edge per transition.

  predicate Drawn(state: StateNode, t: nat, nodes: map<string, Box>) {
    && state.id in nodes && t < |state.transitions|
    && state.transitions[t].target != [] && state.transitions[t].target[0] in nodes
  }

  // The first m transitions of state k that are drawn.
  function LinesFrom(state: StateNode, k: nat, m: nat, nodes: map<string, Box>): set<(nat, nat)> {
    set t: nat | t < m && Drawn(state, t, nodes) :: (k, t)
  }

  function Lines(states: seq<StateNode>, nodes: map<string, Box>): set<(nat, nat)> {
    set k: nat, t: nat | k < |states| && t < |states[k].transitions| && Drawn(states[k], t, nodes) :: (k, t)
  }

  lemma {:induction false} EdgesFromCounted(state: StateNode, k: nat, m: nat, nodes: map<string, Box>)
    requires state.id in nodes && m <= |state.transitions|
    ensures |EdgesFrom(nodes[state.id], state.transitions[..m], nodes)| == |LinesFrom(state, k, m, nodes)|
    decreases m
  {
    var ts := state.transitions;
    if m == 0 {
      assert LinesFrom(state, k, 0, nodes) == {};
    } else {
      var n := m - 1;
      EdgesFromCounted(state, k, n, nodes);
      assert ts[..m][..n] == ts[..n];
      assert LinesFrom(state, k, m, nodes) ==
          LinesFrom(state, k, n, nodes) + (if Drawn(state, n, nodes) then {(k, n)} else {});
    }
  }

  // As many edges are drawn as there are transitions, of boxed states, whose first target has a box.
  lemma {:induction false} EdgesCounted(states: seq<StateNode>, nodes: map<string, Box>)
    ensures |EdgesOf(states, nodes)| == |Lines(states, nodes)|
  {
    hide EdgesFrom, Drawn;
    if states == [] {
      assert Lines(states, nodes) == {};
    } else {
      var n := |states| - 1;
      var state := states[n];
      EdgesCounted(states[..n], nodes);
      var m := |state.transitions|;
      if state.id in nodes {
        EdgesFromCounted(state, n, m, nodes);
        assert state.transitions[..m] == state.transitions;
      } else {
        NotDrawn(state, nodes);
        assert LinesFrom(state, n, m, nodes) == {};
      }
      LinesSplit(states, nodes);
    }
  }

  lemma NotDrawn(state: StateNode, nodes: map<string, Box>)
    requires state.id !in nodes
    ensures forall t: nat :: !Drawn(state, t, nodes)
  {
  }

  lemma LinesSplit(states: seq<StateNode>, nodes: map<string, Box>)
    requires states != []
    ensures var n := |states| - 1;
            var front, last := Lines(states[..n], nodes), LinesFrom(states[n], n, |states[n].transitions|, nodes);
            Lines(states, nodes) == front + last && |front + last| == |front| + |last|
  {
    hide Drawn;
    var n := |states| - 1;
    var front, last := Lines(states[..n], nodes), LinesFrom(states[n], n, |states[n].transitions|, nodes);
    assert forall line :: line in front ==> line.0 < n;
    assert forall line :: line in last ==> line.0 == n;
    assert front !! last;
    DrawnInRange(states[n], nodes);
    assert forall line :: line in Lines(states, nodes) <==> line in front || line in last;
  }

  lemma DrawnInRange(state: StateNode, nodes: map<string, Box>)
    ensures forall t: nat :: Drawn(state, t, nodes) ==> t < |state.transitions|
  {
  }

  // ----- The hash map's order changes only the order of the edges.

  lemma {:induction false} EdgesConcat(a: seq<StateNode>, b: seq<StateNode>, nodes: map<string, Box>)
    ensures EdgesOf(a + b, nodes) == EdgesOf(a, nodes) + EdgesOf(b, nodes)
    decreases |b|
  {
    hide EdgesOfState;
    if b == [] {
      assert a + b == a;
    } else {
      var n := |b| - 1;
      assert (a + b)[..|a + b| - 1] == a + b[..n];
      EdgesConcat(a, b[..n], nodes);
    }
  }

  lemma Cancel(a: multiset<StateNode>, b: multiset<StateNode>, x: StateNode)
    requires a + multiset{x} == b + multiset{x}
    ensures a == b
  {
    assert (a + multiset{x}) - multiset{x} == a;
    assert (b + multiset{x}) - multiset{x} == b;
  }

  lemma {:induction false} OrderOnlyPermutes(a: seq<StateNode>, b: seq<StateNode>, nodes: map<string, Box>)
    requires multiset(a) == multiset(b)
    ensures multiset(EdgesOf(a, nodes)) == multiset(EdgesOf(b, nodes))
    decreases |a|
  {
    hide EdgesOf, EdgesOfState;
    if a == [] {
      assert |multiset(b)| == |multiset(a)|;
      assert a == b;
    } else {
      var n := |a| - 1;
      var last := a[n];
      assert last in multiset(a);
      var k :| 0 <= k < |b| && b[k] == last;
      var before, after := b[..k], b[k + 1..];
      assert a == a[..n] + [last];
      assert b == before + [last] + after;
      assert multiset(a) == multiset(a[..n]) + multiset{last};
      assert multiset(b) == multiset(before + after) + multiset{last};
      Cancel(multiset(a[..n]), multiset(before + after), last);
      OrderOnlyPermutes(a[..n], before + after, nodes);
      EdgesConcat(a[..n], [last], nodes);
      EdgesConcat(before + [last], after, nodes);
      EdgesConcat(before, [last], nodes);
      EdgesConcat(before, after, nodes);
    }
  }
}
