/** The order of the boxes of a drawing: children below their parent, in the order they are listed; and the
    boxes and edges in numbers. */
module LayoutOrder {
  import opened Results
  import opened StatechartLayout
  import opened LayoutLaws

  // ----- Listed first, drawn first.

  predicate ShownAbove(boxes: seq<Box>, i: int, id: string) {
    exists k :: 0 <= k < i && Shows(boxes, k, id)
  }

  // The state of box i is number p of the list, and the existing states listed before it stand above it.
  predicate TurnIn(doc: Document, list: seq<string>, p: int, boxes: seq<Box>, i: nat)
    requires i < |boxes|
  {
    && 0 <= p < |list| && list[p] == boxes[i].title
    && forall q :: 0 <= q < p && list[q] in doc.states ==> ShownAbove(boxes, i, list[q])
  }

  ghost predicate InTurn(doc: Document, boxes: seq<Box>, i: nat)
    requires i < |boxes|
  {
    if Column(boxes[i]) == 0 then exists p :: TurnIn(doc, doc.topLevel, p, boxes, i)
    else exists j, p :: Parent(doc, boxes, j, i) && TurnIn(doc, doc.states[boxes[j].title].children, p, boxes, i)
  }

  // Row k stands above every box from row j on that is not further right than box j.
  predicate Within(boxes: seq<Box>, j: nat, k: int)
    requires j < |boxes|
  {
    forall m :: j < m < |boxes| && Column(boxes[m]) <= Column(boxes[j]) ==> k < m
  }

  // The existing children of box j are drawn before the drawing goes on left of them.
  ghost predicate ChildrenDrawn(doc: Document, boxes: seq<Box>, j: nat)
    requires j < |boxes|
  {
    boxes[j].title in doc.states &&
    forall c :: c in doc.states[boxes[j].title].children && c in doc.states ==>
      exists k :: Shows(boxes, k, c) && Within(boxes, j, k)
  }

  ghost predicate Orderly(doc: Document, boxes: seq<Box>, from: nat) {
    forall i :: from <= i < |boxes| ==> InTurn(doc, boxes, i) && ChildrenDrawn(doc, boxes, i)
  }

  // ----- The walk keeps this order.

  lemma InTurnStays(doc: Document, a: seq<Box>, b: seq<Box>, i: nat)
    requires a <= b && i < |a| && InTurn(doc, a, i)
    ensures InTurn(doc, b, i)
  {
    hide Column;
    if Column(a[i]) == 0 {
      var p :| TurnIn(doc, doc.topLevel, p, a, i);
      TurnStays(doc, doc.topLevel, p, a, b, i);
    } else {
      var j, p :| Parent(doc, a, j, i) && TurnIn(doc, doc.states[a[j].title].children, p, a, i);
      assert Parent(doc, b, j, i);
      TurnStays(doc, doc.states[a[j].title].children, p, a, b, i);
    }
  }

  lemma TurnStays(doc: Document, list: seq<string>, p: int, a: seq<Box>, b: seq<Box>, i: nat)
    requires a <= b && i < |a| && TurnIn(doc, list, p, a, i)
    ensures TurnIn(doc, list, p, b, i)
  {
    forall q | 0 <= q < p && list[q] in doc.states ensures ShownAbove(b, i, list[q]) {
      var k :| 0 <= k < i && Shows(a, k, list[q]);
      assert Shows(b, k, list[q]);
    }
  }

  lemma ChildrenStay(doc: Document, a: seq<Box>, b: seq<Box>, j: nat)
    requires a <= b && j < |a| && ChildrenDrawn(doc, a, j)
    ensures ChildrenDrawn(doc, b, j)
  {
    hide Column;
    forall c | c in doc.states[b[j].title].children && c in doc.states
      ensures exists k :: Shows(b, k, c) && Within(b, j, k)
    {
      var k :| Shows(a, k, c) && Within(a, j, k);
      assert Shows(b, k, c) && Within(b, j, k);
    }
  }

  lemma OrderlyOn(doc: Document, from: nat, a: seq<Box>, b: seq<Box>)
    requires a <= b && Orderly(doc, a, from) && Orderly(doc, b, |a|)
    ensures Orderly(doc, b, from)
  {
    hide InTurn, ChildrenDrawn;
    forall i | from <= i < |a| ensures InTurn(doc, b, i) && ChildrenDrawn(doc, b, i) {
      InTurnStays(doc, a, b, i);
      ChildrenStay(doc, a, b, i);
    }
  }

  // The list whose members come next at this depth: the top level, or the children of the open box.
  ghost predicate Listed(doc: Document, list: seq<string>, depth: nat, boxes: seq<Box>) {
    if depth == 0 then list == doc.topLevel
    else
      exists j ::
        && NearestLeft(boxes, j, |boxes|, depth)
        && boxes[j].title in doc.states && list == doc.states[boxes[j].title].children
  }

  lemma ListedStays(doc: Document, list: seq<string>, depth: nat, a: seq<Box>, b: seq<Box>)
    requires Listed(doc, list, depth, a) && Extends(a, b, depth)
    ensures Listed(doc, list, depth, b)
  {
    hide Column;
    if depth > 0 {
      var j :| NearestLeft(a, j, |a|, depth) && a[j].title in doc.states
          && list == doc.states[a[j].title].children;
      assert NearestLeft(b, j, |b|, depth);
    }
  }

  lemma ListedReady(doc: Document, list: seq<string>, depth: nat, boxes: seq<Box>, ids: seq<string>)
    requires Listed(doc, list, depth, boxes) && forall k :: 0 <= k < |ids| ==> ids[k] in list
    ensures Ready(doc, ids, depth, boxes)
  {
    hide Column;
    if depth > 0 {
      var j :| NearestLeft(boxes, j, |boxes|, depth) && boxes[j].title in doc.states
          && list == doc.states[boxes[j].title].children;
      assert Under(doc, ids, depth, boxes, j);
    }
  }

  // The members before number p have had their turn.
  predicate Due(list: seq<string>, p: nat, s: Sheet) {
    p <= |list| && forall q :: 0 <= q < p ==> list[q] in s.visited
  }

  lemma PlacedInTurn(doc: Document, list: seq<string>, p: nat, depth: nat, s: Sheet, box: Box)
    requires Proper(doc, s) && Listed(doc, list, depth, s.ordered) && Due(list, p, s) && p < |list|
    requires Column(box) == depth && box.title == list[p]
    ensures InTurn(doc, s.ordered + [box], |s.ordered|)
  {
    hide Column, OwnRow, Nested;
    var boxes := s.ordered + [box];
    var n := |s.ordered|;
    forall q | 0 <= q < p && list[q] in doc.states ensures ShownAbove(boxes, n, list[q]) {
      var k :| Shows(s.ordered, k, list[q]);
      assert Shows(boxes, k, list[q]);
    }
    assert TurnIn(doc, list, p, boxes, n);
    if depth > 0 {
      var j :| NearestLeft(s.ordered, j, n, depth) && s.ordered[j].title in doc.states
          && list == doc.states[s.ordered[j].title].children;
      assert list[p] in list;
      assert Parent(doc, boxes, j, n);
    }
  }

  // Once everything below box n is drawn, its children are.
  lemma DrawnUnder(doc: Document, boxes: seq<Box>, n: nat, r: Sheet)
    requires |boxes| == n + 1 && Column(boxes[n]) >= 0 && Extends(boxes, r.ordered, Column(boxes[n]) + 1)
    requires Proper(doc, r) && boxes[n].title in doc.states
    requires forall c :: c in doc.states[boxes[n].title].children ==> c in r.visited
    ensures ChildrenDrawn(doc, r.ordered, n)
  {
    hide Column, OwnRow, Nested;
    forall c | c in doc.states[boxes[n].title].children && c in doc.states
      ensures exists k :: Shows(r.ordered, k, c) && Within(r.ordered, n, k)
    {
      var k :| Shows(r.ordered, k, c);
      assert Within(r.ordered, n, k);
    }
  }

  lemma {:induction false} VisitInOrder(doc: Document, list: seq<string>, p: nat, depth: nat, s: Sheet)
    requires WellKeyed(doc) && Proper(doc, s) && Listed(doc, list, depth, s.ordered) && Due(list, p, s) && p < |list|
    ensures Orderly(doc, Visited(doc, list[p], depth, s).ordered, |s.ordered|)
    decreases Unseen(doc, s), 0
  {
    hide Proper, Column, BoxOf, VisitedAll, Listed, Ready, InTurn, ChildrenDrawn;
    var id := list[p];
    if id !in s.visited && id in doc.states {
      var state := doc.states[id];
      var box := BoxOf(state, depth, s.y);
      var placed := Placed(Marked(s, id), box);
      BoxTitle(state, depth, s.y);
      BoxColumn(state, depth, s.y);
      ListedReady(doc, list, depth, s.ordered, [id]);
      PlacedProper(doc, id, depth, s);
      FewerUnseen(doc, s, placed);
      PlacedInTurn(doc, list, p, depth, s, box);
      ListedUnder(doc, placed.ordered, |s.ordered|);
      VisitAllInOrder(doc, state.children, 0, depth + 1, placed);
      var r := VisitedAll(doc, state.children, depth + 1, placed);
      assert state.children[0..] == state.children;
      VisitAllKeeps(doc, state.children, depth + 1, placed);
      VisitAllCloses(doc, state.children, depth + 1, placed);
      DrawnUnder(doc, placed.ordered, |s.ordered|, r);
      InTurnStays(doc, placed.ordered, r.ordered, |s.ordered|);
    }
  }

  lemma ListedUnder(doc: Document, boxes: seq<Box>, n: nat)
    requires |boxes| == n + 1 && boxes[n].title in doc.states && Column(boxes[n]) >= 0
    ensures Listed(doc, doc.states[boxes[n].title].children, Column(boxes[n]) + 1, boxes)
  {
    hide Column;
    assert NearestLeft(boxes, n, |boxes|, Column(boxes[n]) + 1);
  }

  lemma {:induction false} VisitAllInOrder(doc: Document, list: seq<string>, p: nat, depth: nat, s: Sheet)
    requires WellKeyed(doc) && Proper(doc, s) && Listed(doc, list, depth, s.ordered) && Due(list, p, s)
    ensures Orderly(doc, VisitedAll(doc, list[p..], depth, s).ordered, |s.ordered|)
    decreases Unseen(doc, s), |list| - p + 1
  {
    hide Proper, Column, Visited, Listed, Ready, InTurn, ChildrenDrawn;
    if p < |list| {
      var first := Visited(doc, list[p], depth, s);
      assert list[p..][0] == list[p] && list[p..][1..] == list[p + 1..];
      ListedReady(doc, list, depth, s.ordered, [list[p]]);
      VisitInOrder(doc, list, p, depth, s);
      VisitKeeps(doc, list[p], depth, s);
      VisitCloses(doc, list[p], depth, s);
      FewerUnseen(doc, s, first);
      ListedStays(doc, list, depth, s.ordered, first.ordered);
      VisitAllInOrder(doc, list, p + 1, depth, first);
      ListedReady(doc, list, depth, first.ordered, list[p + 1..]);
      VisitAllKeeps(doc, list[p + 1..], depth, first);
      OrderlyOn(doc, |s.ordered|, first.ordered, VisitedAll(doc, list[p + 1..], depth, first).ordered);
    }
  }

  // In the whole drawing every state stands below those listed before it, and the states listed under a
  // state are all drawn before the drawing leaves it.
  lemma LaidInOrder(doc: Document, i: nat)
    requires WellKeyed(doc) && i < |Laid(doc).ordered|
    ensures InTurn(doc, Laid(doc).ordered, i) && ChildrenDrawn(doc, Laid(doc).ordered, i)
  {
    hide InTurn, ChildrenDrawn, VisitedAll;
    assert doc.topLevel[0..] == doc.topLevel;
    VisitAllInOrder(doc, doc.topLevel, 0, 0, BLANK);
  }

  // ----- In numbers.

  // 8 a character, counted in bytes, but at least 120 and at most 220.
  predicate IsWidth(w: int, longest: int) {
    && (longest <= 15 ==> w == 120)
    && (15 < longest < 28 ==> w == 8 * longest)
    && (longest >= 28 ==> w == 220)
  }

  predicate IsBox(state: StateNode, box: Box, column: int, row: int) {
    && box.title == state.id && box.kind == state.stateType
    && box.x == 40 + 240 * column && box.y == 90 + 92 * row && box.height == 54
    && (state.stateType.Atomic? ==> box.subtitle == "atomic")
    && (state.stateType.Compound? ==> box.subtitle == "compound")
    && (state.stateType.Parallel? ==> box.subtitle == "parallel")
    && (state.stateType.Final? ==> box.subtitle == "final")
    && IsWidth(box.width, if Utf8Len(state.id) < |box.subtitle| then |box.subtitle| else Utf8Len(state.id))
  }

  // The length in bytes, character by character.
  lemma {:induction false} Utf8Adds(a: string, b: string)
    ensures Utf8Len(a + b) == Utf8Len(a) + Utf8Len(b)
    ensures forall c: char :: Utf8Len([c]) ==
              if c < '\U{80}' then 1 else if c < '\U{800}' then 2 else if c < '\U{10000}' then 3 else 4
    decreases |a|
  {
    if a == [] {
      assert a + b == b;
    } else {
      assert (a + b)[1..] == a[1..] + b;
      Utf8Adds(a[1..], b);
    }
  }

  // Row i of the drawing shows its state in numbers: as far in as some way down to the state is long.
  lemma BoxesInNumbers(doc: Document, i: nat)
    requires WellKeyed(doc) && i < |Laid(doc).ordered|
    ensures var box := Laid(doc).ordered[i];
            && box.title in doc.states
            && exists path :: LeadsTo(doc, path, box.title) && IsBox(doc.states[box.title], box, |path| - 1, i)
  {
    hide Laid, Nested, LeadsTo;
    var box := Laid(doc).ordered[i];
    BoxesApart(doc, i);
    var state := doc.states[box.title];
    var path :| LeadsTo(doc, path, box.title) && box.x == LEFT + COLUMN * (|path| - 1);
    assert IsBox(state, box, |path| - 1, i);
  }
}
