/** The drawing of a statechart document: the depth-first walk that places the boxes and the edges
    between them (nivasa-cli/src/statechart.rs). Coordinates are integers. */
module StatechartLayout {
  import opened Results

  datatype StateType = Atomic | Compound | Parallel | Final

  datatype Transition = Transition(event: Option<string>, target: seq<string>)

  datatype StateNode = StateNode(id: string, stateType: StateType, children: seq<string>, transitions: seq<Transition>)

  // A document's states by id. Children and targets are ids, which may be missing or run in cycles.
  datatype Document = Document(states: map<string, StateNode>, topLevel: seq<string>)

  datatype Box = Box(
    title: string,
    subtitle: string,
    kind: StateType,
    x: int,
    y: int,
    width: int,
    height: int)

  datatype Edge = Edge(fromX: int, fromY: int, toX: int, toY: int, title: string)

  const TOP := 90
  const LEFT := 40
  const ROW := 92
  const COLUMN := 240
  const HEIGHT := 54

  function Utf8Len(s: string): nat {
    if s == "" then 0
    else
      var c := s[0] as int;
      (if c < 0x80 then 1 else if c < 0x800 then 2 else if c < 0x10000 then 3 else 4) + Utf8Len(s[1..])
  }

  function Subtitle(t: StateType): string {
    match t
    case Atomic => "atomic"
    case Compound => "compound"
    case Parallel => "parallel"
    case Final => "final"
  }

  function Clamp(n: int, low: int, high: int): int {
    if n < low then low else if n > high then high else n
  }

  function Width(title: string, subtitle: string): (w: int)
    ensures 120 <= w <= 220
  {
    var longest := if Utf8Len(title) < |subtitle| then |subtitle| else Utf8Len(title);
    Clamp(longest * 8, 120, 220)
  }

  function BoxOf(state: StateNode, depth: nat, y: int): Box {
    var subtitle := Subtitle(state.stateType);
    Box(state.id, subtitle, state.stateType, LEFT + depth * COLUMN, y, Width(state.id, subtitle), HEIGHT)
  }

  // ----- The walk as a function: boxes placed so far, ids seen so far, and the next free row.

  datatype Sheet = Sheet(ordered: seq<Box>, visited: set<string>, y: int)

  const BLANK := Sheet([], {}, TOP)

  function Marked(s: Sheet, id: string): Sheet {
    s.(visited := s.visited + {id})
  }

  function Placed(s: Sheet, box: Box): Sheet {
    s.(ordered := s.ordered + [box], y := s.y + ROW)
  }

  function Unseen(doc: Document, s: Sheet): nat {
    |doc.states.Keys - s.visited|
  }

  lemma FewerUnseen(doc: Document, a: Sheet, b: Sheet)
    requires a.visited <= b.visited
    ensures Unseen(doc, b) <= Unseen(doc, a)
    ensures forall id :: id in doc.states && id in b.visited && id !in a.visited ==> Unseen(doc, b) < Unseen(doc, a)
  {
    var before, after := doc.states.Keys - a.visited, doc.states.Keys - b.visited;
    SubsetCount(after, before);
    forall id | id in doc.states && id in b.visited && id !in a.visited ensures |after| < |before| {
      SubsetCount(after, before - {id});
    }
  }

  lemma {:induction false} SubsetCount(a: set<string>, b: set<string>)
    requires a <= b
    ensures |a| <= |b|
  {
    if a != {} {
      var x :| x in a;
      SubsetCount(a - {x}, b - {x});
    }
  }

  function Visited(doc: Document, id: string, depth: nat, s: Sheet): (r: Sheet)
    ensures s.visited <= r.visited
    decreases Unseen(doc, s), 0
  {
    if id in s.visited then s
    else if id !in doc.states then Marked(s, id)
    else
      var placed := Placed(Marked(s, id), BoxOf(doc.states[id], depth, s.y));
      FewerUnseen(doc, s, placed);
      VisitedAll(doc, doc.states[id].children, depth + 1, placed)
  }

  function VisitedAll(doc: Document, ids: seq<string>, depth: nat, s: Sheet): (r: Sheet)
    ensures s.visited <= r.visited
    decreases Unseen(doc, s), |ids|
  {
    if ids == [] then s
    else
      var first := Visited(doc, ids[0], depth, s);
      FewerUnseen(doc, s, first);
      VisitedAll(doc, ids[1..], depth, first)
  }

  function Laid(doc: Document): Sheet {
    VisitedAll(doc, doc.topLevel, 0, BLANK)
  }

  lemma {:induction false} VisitedConcat(doc: Document, a: seq<string>, b: seq<string>, depth: nat, s: Sheet)
    ensures VisitedAll(doc, a + b, depth, s) == VisitedAll(doc, b, depth, VisitedAll(doc, a, depth, s))
    decreases |a|
  {
    hide Visited;
    if a == [] {
      assert a + b == b;
    } else {
      assert (a + b)[1..] == a[1..] + b;
      VisitedConcat(doc, a[1..], b, depth, Visited(doc, a[0], depth, s));
    }
  }

  lemma VisitedSnoc(doc: Document, ids: seq<string>, i: nat, depth: nat, s: Sheet)
    requires i < |ids|
    ensures VisitedAll(doc, ids[..i + 1], depth, s) == Visited(doc, ids[i], depth, VisitedAll(doc, ids[..i], depth, s))
  {
    hide Visited;
    assert ids[..i + 1] == ids[..i] + [ids[i]];
    VisitedConcat(doc, ids[..i], [ids[i]], depth, s);
    assert [ids[i]][1..] == [];
  }

  // ----- The walk as the source runs it, on shared variables.

  class Walk {
    var ordered: seq<Box>
    var visited: set<string>
    var y: int

    ghost function Now(): Sheet
      reads this
    {
      Sheet(ordered, visited, y)
    }

    constructor ()
      ensures Now() == BLANK
    {
      ordered, visited, y := [], {}, TOP;
    }

    method Visit(doc: Document, id: string, depth: nat)
      modifies this
      ensures Now() == Visited(doc, id, depth, old(Now()))
      decreases |doc.states.Keys - visited|
    {
      if id in visited {
        return;
      }
      visited := visited + {id};
      if id in doc.states {
        var state := doc.states[id];
        ordered := ordered + [BoxOf(state, depth, y)];
        y := y + ROW;
        ghost var placed := Now();
        FewerUnseen(doc, old(Now()), placed);
        assert state.children[..0] == [];
        for i := 0 to |state.children|
          invariant Now() == VisitedAll(doc, state.children[..i], depth + 1, placed)
        {
          FewerUnseen(doc, placed, Now());
          Visit(doc, state.children[i], depth + 1);
          VisitedSnoc(doc, state.children, i, depth + 1, placed);
        }
        assert state.children[..|state.children|] == state.children;
      }
    }
  }

  // `layout_nodes`
  method LayoutNodes(doc: Document) returns (ordered: seq<Box>)
    ensures ordered == Laid(doc).ordered
  {
    hide Visited;
    var walk := new Walk();
    assert doc.topLevel[..0] == [];
    for i := 0 to |doc.topLevel|
      invariant walk.Now() == VisitedAll(doc, doc.topLevel[..i], 0, BLANK)
    {
      walk.Visit(doc, doc.topLevel[i], 0);
      VisitedSnoc(doc, doc.topLevel, i, 0, BLANK);
    }
    assert doc.topLevel[..|doc.topLevel|] == doc.topLevel;
    ordered := walk.ordered;
  }

  // ----- Edges.

  // Boxes by label; a later box with the same label replaces an earlier one.
  function NodeMap(nodes: seq<Box>): map<string, Box> {
    if nodes == [] then map[]
    else
      var last := nodes[|nodes| - 1];
      NodeMap(nodes[..|nodes| - 1])[last.title := last]
  }

  function EdgeLabel(t: Transition): string {
    match t.event
    case Some(event) => event
    case None => "eventless"
  }

  function EdgeOf(from: Box, to: Box, t: Transition): Edge {
    Edge(from.x + from.width, from.y + from.height / 2, to.x, to.y + to.height / 2, EdgeLabel(t))
  }

  // The edges of one box: one per transition whose first target has a box.
  function EdgesFrom(from: Box, transitions: seq<Transition>, nodes: map<string, Box>): seq<Edge> {
    if transitions == [] then []
    else
      var n := |transitions| - 1;
      var t := transitions[n];
      EdgesFrom(from, transitions[..n], nodes)
      + (if t.target != [] && t.target[0] in nodes then [EdgeOf(from, nodes[t.target[0]], t)] else [])
  }

  function EdgesOfState(state: StateNode, nodes: map<string, Box>): seq<Edge> {
    if state.id in nodes then EdgesFrom(nodes[state.id], state.transitions, nodes) else []
  }

  // The edges of all states, taken in the given order.
  function EdgesOf(states: seq<StateNode>, nodes: map<string, Box>): seq<Edge> {
    if states == [] then []
    else EdgesOf(states[..|states| - 1], nodes) + EdgesOfState(states[|states| - 1], nodes)
  }

  // `collect_edges`; `states` is the document's states in whatever order its hash map gives them.
  method CollectEdges(states: seq<StateNode>, nodes: seq<Box>) returns (edges: seq<Edge>)
    ensures edges == EdgesOf(states, NodeMap(nodes))
  {
    var nodeMap: map<string, Box> := map[];
    assert nodes[..0] == [];
    for i := 0 to |nodes|
      invariant nodeMap == NodeMap(nodes[..i])
    {
      assert nodes[..i + 1][..i] == nodes[..i];
      nodeMap := nodeMap[nodes[i].title := nodes[i]];
    }
    assert nodes[..|nodes|] == nodes;
    edges := [];
    for i := 0 to |states|
      invariant edges == EdgesOf(states[..i], nodeMap)
    {
      var state := states[i];
      assert states[..i + 1][..i] == states[..i];
      if state.id !in nodeMap {
        continue;
      }
      var from := nodeMap[state.id];
      ghost var before := edges;
      for k := 0 to |state.transitions|
        invariant edges == before + EdgesFrom(from, state.transitions[..k], nodeMap)
      {
        var t := state.transitions[k];
        assert state.transitions[..k + 1][..k] == state.transitions[..k];
        if t.target == [] || t.target[0] !in nodeMap {
          continue;
        }
        edges := edges + [EdgeOf(from, nodeMap[t.target[0]], t)];
      }
      assert state.transitions[..|state.transitions|] == state.transitions;
    }
    assert states[..|states|] == states;
  }
}
