// What the lines of the drawing say about the spans: internal/tui/panels/traces.go, walkTraceDFS and buildTreePrefix,
// for a trace with one root and distinct span IDs.
module TraceGlyphs {
  import opened TraceModel
  import opened TreeDrawing
  import opened TraceWalk
  import opened TraceVisit

  // ---- each row's parent row ---------------------------------------------------------------------------

  /** Row p is the parent of row j: the last row above it that is one level up. */
  ghost predicate IsUnder(cells: seq<Cell>, p: nat, j: nat) {
    && p < j < |cells| && cells[j].1 == cells[p].1 + 1 && cells[j].0.parentID == cells[p].0.spanID
    && forall m :: p < m < j ==> cells[m].1 > cells[p].1
  }

  ghost predicate HasOver(cells: seq<Cell>, j: nat) { exists p: nat :: IsUnder(cells, p, j) }

  lemma UnderInLeft(a: seq<Cell>, b: seq<Cell>, j: nat)
    requires HasOver(a, j)
    ensures HasOver(a + b, j)
  {
    var p: nat :| IsUnder(a, p, j);
    assert IsUnder(a + b, p, j);
  }

  lemma UnderInRight(a: seq<Cell>, b: seq<Cell>, j: nat)
    requires HasOver(b, j)
    ensures HasOver(a + b, |a| + j)
  {
    var p: nat :| IsUnder(b, p, j);
    var ab := a + b;
    assert forall m :: |a| <= m < |ab| ==> ab[m] == b[m - |a|];
    assert IsUnder(ab, |a| + p, |a| + j);
  }

  /** Row j of consecutive siblings below p is one of them, or has its parent row among the rows. */
  ghost predicate SiblingOrUnder(cells: seq<Cell>, j: nat, p: Span, depth: nat) {
    j < |cells| && ((cells[j].1 == depth && cells[j].0.parentID == p.spanID) || HasOver(cells, j))
  }

  ghost predicate AllUnder(cells: seq<Cell>, p: Span, depth: nat) {
    forall j :: 0 <= j < |cells| ==> SiblingOrUnder(cells, j, p, depth)
  }

  /** p above the rows of its children. */
  lemma UnderHead(p: Span, depth: nat, rest: seq<Cell>, j: nat)
    requires AllUnder(rest, p, depth + 1) && (forall m :: 0 <= m < |rest| ==> rest[m].1 > depth)
    requires 0 < j < |rest| + 1
    ensures HasOver([(p, depth)] + rest, j)
  {
    var head: seq<Cell> := [(p, depth)];
    assert SiblingOrUnder(rest, j - 1, p, depth + 1);
    if HasOver(rest, j - 1) { UnderInRight(head, rest, j - 1); } else { assert IsUnder(head + rest, 0, j); }
  }

  /** The rows of the first child, then those of the others. */
  lemma UnderBoth(a: seq<Cell>, b: seq<Cell>, p: Span, depth: nat, j: nat)
    requires a != [] && SiblingOrUnder(a, 0, p, depth) && (forall k :: 0 < k < |a| ==> HasOver(a, k))
    requires AllUnder(b, p, depth) && j < |a + b|
    ensures SiblingOrUnder(a + b, j, p, depth)
  {
    if j < |a| {
      if HasOver(a, j) { UnderInLeft(a, b, j); }
    } else {
      assert SiblingOrUnder(b, j - |a|, p, depth);
      if HasOver(b, j - |a|) { UnderInRight(a, b, j - |a|); }
    }
  }

  lemma NodeCells(t: Tree, hasNext: seq<bool>)
    ensures var rest := Cells(ForestLines(t.kids, hasNext, false));
            && Cells(Lines(t, hasNext)) == [(t.span, |hasNext|)] + rest
            && forall m :: 0 <= m < |rest| ==> rest[m].1 > |hasNext|
  {
    ForestDeep(t.kids, hasNext, false);
  }

  lemma ForestCells(kids: seq<Tree>, hasNext: seq<bool>, more: bool)
    requires kids != []
    ensures var a := Cells(Lines(kids[0], hasNext + [|kids| > 1 || more]));
            && Cells(ForestLines(kids, hasNext, more)) == a + Cells(ForestLines(kids[1..], hasNext, more))
            && a != [] && a[0] == (kids[0].span, |hasNext| + 1)
  {
  }

  lemma HeadSpan(kids: seq<Tree>, p: Span, ch: Children, root: Span)
    requires WellFormed(ch, root) && kids != [] && KidsOf(kids, p, ch)
    ensures IsTreeOf(kids[0], ch) && kids[0].span.parentID == p.spanID
  {
  }

  lemma {:induction false} TreeUnder(t: Tree, hasNext: seq<bool>, ch: Children, root: Span)
    requires WellFormed(ch, root) && IsTreeOf(t, ch)
    ensures forall j :: 0 < j < |Cells(Lines(t, hasNext))| ==> HasOver(Cells(Lines(t, hasNext)), j)
    decreases t, 1
  {
    hide *;
    var rest := Cells(ForestLines(t.kids, hasNext, false));
    KidsOfNode(t, ch);
    NodeCells(t, hasNext);
    ForestUnder(t.kids, hasNext, false, t.span, ch, root);
    forall j | 0 < j < |rest| + 1 ensures HasOver([(t.span, |hasNext|)] + rest, j) {
      UnderHead(t.span, |hasNext|, rest, j);
    }
  }

  lemma {:induction false} ForestUnder(
    kids: seq<Tree>, hasNext: seq<bool>, more: bool, p: Span, ch: Children, root: Span)
    requires WellFormed(ch, root) && KidsOf(kids, p, ch)
    ensures AllUnder(Cells(ForestLines(kids, hasNext, more)), p, |hasNext| + 1)
    decreases kids, 0
  {
    if kids != [] {
      hide WellFormed, KidsOf, IsTreeOf, Cells, Lines, ForestLines, HasOver;
      var flags := hasNext + [|kids| > 1 || more];
      var a, b := Cells(Lines(kids[0], flags)), Cells(ForestLines(kids[1..], hasNext, more));
      KidsTail(kids, p, ch);
      HeadSpan(kids, p, ch, root);
      ForestCells(kids, hasNext, more);
      TreeUnder(kids[0], flags, ch, root);
      ForestUnder(kids[1..], hasNext, more, p, ch, root);
      var depth: nat := |hasNext| + 1;
      forall j | 0 <= j < |a + b| ensures SiblingOrUnder(a + b, j, p, depth) { UnderBoth(a, b, p, depth, j); }
    }
  }

  // ---- climbing by parent IDs -----------------------------------------------------------------------------

  /** n steps from a span to the span its parent ID names lead from row i to row a. */
  ghost predicate Climbs(rows: seq<Row>, i: nat, n: nat, a: nat) {
    && i < |rows| && a < |rows|
    && if n == 0 then a == i
       else exists b: nat :: Climbs(rows, i, n - 1, b) && rows[b].span.parentID == rows[a].span.spanID
  }

  /** All a reader needs to know of the rows: each but the first has its parent row, and no two share an ID. */
  ghost predicate Readable(rows: seq<Row>) {
    && (forall j :: 0 < j < |rows| ==> HasOver(ReadRows(rows), j))
    && (forall i, j :: 0 <= i < |rows| && 0 <= j < |rows| && rows[i].span.spanID == rows[j].span.spanID ==> i == j)
    && (rows != [] ==> Depth(rows[0]) == 0)
  }

  lemma DrawnCells(t: Tree)
    ensures ReadRows(Draw(t)) == Cells(Lines(t, [])) && Depth(Draw(t)[0]) == 0
  {
    var rows, lines := Draw(t), Lines(t, []);
    RowDepthsMatch(lines);
    forall i | 0 <= i < |rows| ensures ReadRows(rows)[i] == Cells(lines)[i] {
      assert RowDepths(rows)[i] == Depths(lines)[i];
    }
    assert RowDepths(rows)[0] == Depths(lines)[0];
  }

  lemma DistinctRows(t: Tree, ch: Children, i: nat, j: nat)
    requires WellFormed(ch, t.span) && IsTreeOf(t, ch) && i < |Draw(t)| && j < |Draw(t)|
    requires Draw(t)[i].span.spanID == Draw(t)[j].span.spanID
    ensures i == j
  {
    WalkVisitsConnected(t, ch);
    DrawnSpans(t);
    ListedIsBelow(t, Preorder(t)[i], ch, t.span);
    ListedIsBelow(t, Preorder(t)[j], ch, t.span);
    hide IsTreeOf, Draw, Preorder;
  }

  lemma DrawIsReadable(t: Tree, ch: Children)
    requires WellFormed(ch, t.span) && IsTreeOf(t, ch)
    ensures Readable(Draw(t))
  {
    DrawnCells(t);
    TreeUnder(t, [], ch, t.span);
    forall i, j
      | 0 <= i < |Draw(t)| && 0 <= j < |Draw(t)| && Draw(t)[i].span.spanID == Draw(t)[j].span.spanID
      ensures i == j
    {
      DistinctRows(t, ch, i, j);
    }
    hide WellFormed, IsTreeOf, HasOver;
  }

  /** Row a is the ancestor of row i at this depth: the last row at or above it that is no deeper. */
  ghost predicate AncestorRow(rows: seq<Row>, i: nat, depth: nat, a: nat) {
    && a <= i < |rows| && Depth(rows[a]) == depth
    && forall m :: a < m <= i ==> Depth(rows[m]) > depth
  }

  /** The parent row is the only row whose ID is the parent ID. */
  lemma ParentRow(rows: seq<Row>, j: nat) returns (p: nat)
    requires Readable(rows) && 0 < j < |rows|
    ensures p < j && Depth(rows[j]) == Depth(rows[p]) + 1 && forall m :: p < m < j ==> Depth(rows[m]) > Depth(rows[p])
    ensures rows[j].span.parentID == rows[p].span.spanID
    ensures forall q: nat :: q < |rows| && rows[q].span.spanID == rows[j].span.parentID ==> q == p
  {
    var cells := ReadRows(rows);
    assert HasOver(cells, j);
    p :| IsUnder(cells, p, j);
    assert forall m :: 0 <= m < |rows| ==> cells[m].1 == Depth(rows[m]);
  }

  /** Climbing from row i as many times as it is deeper than some depth leads to its ancestor row at that depth. */
  lemma {:induction false} ClimbsToAncestor(rows: seq<Row>, i: nat, n: nat, a: nat)
    requires Readable(rows) && Climbs(rows, i, n, a) && n <= Depth(rows[i])
    ensures AncestorRow(rows, i, Depth(rows[i]) - n, a)
    decreases n
  {
    if n > 0 {
      var b: nat :| Climbs(rows, i, n - 1, b) && rows[b].span.parentID == rows[a].span.spanID;
      ClimbsToAncestor(rows, i, n - 1, b);
      var p := ParentRow(rows, b);
      assert p == a;
    }
  }

  lemma {:induction false} CanClimb(rows: seq<Row>, i: nat, n: nat) returns (a: nat)
    requires Readable(rows) && i < |rows| && n <= Depth(rows[i])
    ensures Climbs(rows, i, n, a)
    decreases n
  {
    if n == 0 {
      a := i;
    } else {
      var b := CanClimb(rows, i, n - 1);
      ClimbsToAncestor(rows, i, n - 1, b);
      a := ParentRow(rows, b);
    }
  }

  /** A row hangs at the level of an ancestor exactly when it comes later and has that ancestor's parent. */
  lemma HangsIffSibling(rows: seq<Row>, i: nat, k: nat, a: nat, j: nat)
    requires Readable(rows) && AncestorRow(rows, i, k + 1, a) && i < j < |rows|
    ensures Hangs(RowDepths(rows), i, k, j) <==> rows[j].span.parentID == rows[a].span.parentID
  {
    var p := ParentRow(rows, a);
    var q := ParentRow(rows, j);
    if Hangs(RowDepths(rows), i, k, j) {
      assert forall m :: i < m < j ==> RowDepths(rows)[m] == Depth(rows[m]);
      assert q <= p;
      assert p == q;
    }
  }

  /** In the drawing of a trace with one root and distinct IDs, a line is drawn at level k of a row exactly when a
      later row shows a span with the same parent as the row's ancestor at depth k + 1, the one that the parent IDs
      lead to. */
  lemma LinesMeanSiblings(t: Tree, ch: Children, i: nat, k: nat, a: nat)
    requires WellFormed(ch, t.span) && IsTreeOf(t, ch) && i < |Draw(t)| && k < Depth(Draw(t)[i])
    requires Climbs(Draw(t), i, Depth(Draw(t)[i]) - k - 1, a)
    ensures 3 * k < |Draw(t)[i].prefix|
    ensures LineAt(Draw(t)[i].prefix, k) <==>
            exists j :: i < j < |Draw(t)| && Draw(t)[j].span.parentID == Draw(t)[a].span.parentID
  {
    hide WellFormed, IsTreeOf, Draw, LineAt, Climbs, Readable, AncestorRow;
    var rows := Draw(t);
    DrawIsReadable(t, ch);
    ClimbsToAncestor(rows, i, Depth(rows[i]) - k - 1, a);
    GlyphsMeanSiblings(t, i, k);
    forall j | i < j < |rows|
      ensures Hangs(RowDepths(rows), i, k, j) <==> rows[j].span.parentID == rows[a].span.parentID
    {
      HangsIffSibling(rows, i, k, a, j);
    }
    if j: nat :| Hangs(RowDepths(rows), i, k, j) { assert i < j < |rows|; }
  }

  /** The depth of a row is how many times one can climb from it: that many times, to the root. */
  lemma DepthIsDistance(t: Tree, ch: Children, i: nat)
    requires WellFormed(ch, t.span) && IsTreeOf(t, ch) && i < |Draw(t)|
    ensures Climbs(Draw(t), i, Depth(Draw(t)[i]), 0)
  {
    DrawIsReadable(t, ch);
    var a := CanClimb(Draw(t), i, Depth(Draw(t)[i]));
    ClimbsToAncestor(Draw(t), i, Depth(Draw(t)[i]), a);
    if a > 0 { var p := ParentRow(Draw(t), a); }
  }
}
