// Box-drawing prefixes of the waterfall rows: internal/tui/panels/traces.go, walkTraceDFS and buildTreePrefix.
module TreeDrawing {
  import opened TraceModel

  datatype Row = Row(span: Span, prefix: string)

  /** An ordered span tree: what the depth-first walk visits. */
  datatype Tree = Node(span: Span, kids: seq<Tree>)

  const TEE := "├─ "
  const CORNER := "└─ "
  const PIPE := "│  "
  const BLANK := "   "

  function Stem(hasNext: seq<bool>): string {
    if hasNext == [] then ""
    else Stem(hasNext[..|hasNext| - 1]) + if hasNext[|hasNext| - 1] then PIPE else BLANK
  }

  /** Three cells a level: pipes or blanks for the ancestors, a tee or a corner for the row itself. */
  function PrefixOf(hasNext: seq<bool>): string {
    if hasNext == [] then ""
    else Stem(hasNext[..|hasNext| - 1]) + if hasNext[|hasNext| - 1] then TEE else CORNER
  }

  method BuildTreePrefix(ancestorsHasNext: seq<bool>) returns (b: string)
    ensures b == PrefixOf(ancestorsHasNext)
  {
    b := "";
    if |ancestorsHasNext| == 0 { return; }
    var n := |ancestorsHasNext|;
    for i := 0 to n
      invariant b == if i < n then Stem(ancestorsHasNext[..i]) else PrefixOf(ancestorsHasNext)
    {
      var hasNext, last := ancestorsHasNext[i], i == n - 1;
      assert ancestorsHasNext[..i + 1][..i] == ancestorsHasNext[..i];
      assert last ==> ancestorsHasNext[..n] == ancestorsHasNext;
      if last && hasNext {
        b := b + TEE;
      } else if last && !hasNext {
        b := b + CORNER;
      } else if hasNext {
        b := b + PIPE;
      } else {
        b := b + BLANK;
      }
    }
  }

  /** Does the prefix show a line going down at this level? */
  predicate LineAt(prefix: string, level: nat)
    requires 3 * level < |prefix|
  {
    prefix[3 * level] == '├' || prefix[3 * level] == '│'
  }

  lemma {:induction false} StemCells(hasNext: seq<bool>)
    ensures |Stem(hasNext)| == 3 * |hasNext|
    ensures forall k :: 0 <= k < |hasNext| ==> (LineAt(Stem(hasNext), k) <==> hasNext[k])
  {
    if hasNext != [] {
      var init := hasNext[..|hasNext| - 1];
      StemCells(init);
      assert forall k :: 0 <= k < |init| ==> Stem(hasNext)[3 * k] == Stem(init)[3 * k];
    }
  }

  lemma PrefixCells(hasNext: seq<bool>)
    ensures |PrefixOf(hasNext)| == 3 * |hasNext|
    ensures forall k :: 0 <= k < |hasNext| ==> (LineAt(PrefixOf(hasNext), k) <==> hasNext[k])
  {
    if hasNext != [] {
      var init := hasNext[..|hasNext| - 1];
      StemCells(init);
      assert forall k :: 0 <= k < |init| ==> PrefixOf(hasNext)[3 * k] == Stem(init)[3 * k];
    }
  }

  /** The prefix tells the whole ancestor list apart. */
  lemma PrefixInjective(a: seq<bool>, b: seq<bool>)
    requires PrefixOf(a) == PrefixOf(b)
    ensures a == b
  {
    PrefixCells(a);
    PrefixCells(b);
    forall k | 0 <= k < |a| ensures a[k] == b[k] {
      assert LineAt(PrefixOf(a), k) <==> a[k];
    }
  }

  // ---- the rows of a tree -----------------------------------------------------------------

  datatype Line = Line(span: Span, hasNext: seq<bool>)

  function Lines(t: Tree, hasNext: seq<bool>): (r: seq<Line>)
    ensures |r| > 0
  {
    [Line(t.span, hasNext)] + ForestLines(t.kids, hasNext, false)
  }

  /** The rows of consecutive siblings; more says whether siblings follow after them. */
  function ForestLines(kids: seq<Tree>, hasNext: seq<bool>, more: bool): seq<Line> {
    if kids == [] then []
    else Lines(kids[0], hasNext + [|kids| > 1 || more]) + ForestLines(kids[1..], hasNext, more)
  }

  lemma {:induction false} ForestLinesAppend(kids: seq<Tree>, k: Tree, hasNext: seq<bool>, more: bool)
    ensures ForestLines(kids + [k], hasNext, more)
         == ForestLines(kids, hasNext, true) + Lines(k, hasNext + [more])
  {
    if kids == [] {
      assert [k][1..] == [];
    } else {
      assert (kids + [k])[1..] == kids[1..] + [k];
      ForestLinesAppend(kids[1..], k, hasNext, more);
    }
  }

  function Rows(lines: seq<Line>): (r: seq<Row>)
    ensures |r| == |lines|
  {
    seq(|lines|, i requires 0 <= i < |lines| => Row(lines[i].span, PrefixOf(lines[i].hasNext)))
  }

  lemma RowsConcat(a: seq<Line>, b: seq<Line>)
    ensures Rows(a + b) == Rows(a) + Rows(b)
  {
  }

  /** The rows a walk from t prints. */
  function Draw(t: Tree): seq<Row> { Rows(Lines(t, [])) }

  // ---- what the lines mean ------------------------------------------------------------------

  function Depth(r: Row): nat { |r.prefix| / 3 }

  function Depths(lines: seq<Line>): (r: seq<nat>)
    ensures |r| == |lines|
  {
    seq(|lines|, i requires 0 <= i < |lines| => |lines[i].hasNext|)
  }

  /** In the rows below, does a row at depth k + 1 come before the drawing returns to depth k or less? */
  predicate Continues(below: seq<nat>, k: nat) {
    below != [] && below[0] > k && (below[0] == k + 1 || Continues(below[1..], k))
  }

  /** Every line's flags say exactly how the rows below it continue. */
  ghost predicate Faithful(lines: seq<Line>, below: seq<nat>) {
    forall i, k | 0 <= i < |lines| && 0 <= k < |lines[i].hasNext| ::
      lines[i].hasNext[k] <==> Continues(Depths(lines)[i + 1..] + below, k)
  }

  /** hasNext describes a context whose remaining rows have these depths. */
  ghost predicate Context(hasNext: seq<bool>, below: seq<nat>) {
    && (below != [] ==> below[0] <= |hasNext|)
    && forall k :: 0 <= k < |hasNext| ==> (hasNext[k] <==> Continues(below, k))
  }

  lemma {:induction false} SkipDeep(ds: seq<nat>, below: seq<nat>, k: nat)
    requires forall i :: 0 <= i < |ds| ==> ds[i] > k + 1
    ensures Continues(ds + below, k) <==> Continues(below, k)
  {
    if ds == [] {
      assert ds + below == below;
    } else {
      assert (ds + below)[1..] == ds[1..] + below;
      SkipDeep(ds[1..], below, k);
    }
  }

  lemma {:induction false} LinesDeep(t: Tree, hasNext: seq<bool>)
    ensures Lines(t, hasNext)[0].hasNext == hasNext
    ensures forall i :: 0 < i < |Lines(t, hasNext)| ==> |Lines(t, hasNext)[i].hasNext| > |hasNext|
    decreases t, 1
  {
    ForestDeep(t.kids, hasNext, false);
  }

  lemma {:induction false} ForestDeep(kids: seq<Tree>, hasNext: seq<bool>, more: bool)
    ensures forall i :: 0 <= i < |ForestLines(kids, hasNext, more)| ==>
              |ForestLines(kids, hasNext, more)[i].hasNext| > |hasNext|
    decreases kids, 0
  {
    if kids != [] {
      LinesDeep(kids[0], hasNext + [|kids| > 1 || more]);
      ForestDeep(kids[1..], hasNext, more);
    }
  }

  lemma FaithfulConcat(a: seq<Line>, b: seq<Line>, below: seq<nat>)
    requires Faithful(a, Depths(b) + below) && Faithful(b, below)
    ensures Faithful(a + b, below)
  {
    var ab := a + b;
    forall i, k | 0 <= i < |ab| && 0 <= k < |ab[i].hasNext|
      ensures ab[i].hasNext[k] <==> Continues(Depths(ab)[i + 1..] + below, k)
    {
      if i < |a| {
        assert Depths(ab)[i + 1..] + below == Depths(a)[i + 1..] + (Depths(b) + below);
      } else {
        assert Depths(ab)[i + 1..] + below == Depths(b)[i - |a| + 1..] + below;
      }
    }
  }

  lemma {:induction false} LinesFaithful(t: Tree, hasNext: seq<bool>, below: seq<nat>)
    requires Context(hasNext, below)
    ensures Faithful(Lines(t, hasNext), below)
    decreases t, 1
  {
    ForestFaithful(t.kids, hasNext, false, below);
    var head, rest := [Line(t.span, hasNext)], ForestLines(t.kids, hasNext, false);
    ForestDeep(t.kids, hasNext, false);
    forall k | 0 <= k < |hasNext| ensures hasNext[k] <==> Continues(Depths(rest) + below, k) {
      SkipDeep(Depths(rest), below, k);
    }
    assert Faithful(head, Depths(rest) + below) by {
      assert Depths(head)[1..] + (Depths(rest) + below) == Depths(rest) + below;
    }
    FaithfulConcat(head, rest, below);
  }

  /** Siblings at depth |hasNext| + 1, followed by more siblings exactly when below starts with one. */
  lemma {:induction false} ForestFaithful(kids: seq<Tree>, hasNext: seq<bool>, more: bool, below: seq<nat>)
    requires forall k :: 0 <= k < |hasNext| ==> (hasNext[k] <==> Continues(below, k))
    requires below != [] ==> below[0] <= |hasNext| + 1
    requires more <==> below != [] && below[0] == |hasNext| + 1
    ensures Faithful(ForestLines(kids, hasNext, more), below)
    decreases kids, 0
  {
    if kids != [] {
      var flag := |kids| > 1 || more;
      var first, rest := Lines(kids[0], hasNext + [flag]), ForestLines(kids[1..], hasNext, more);
      ForestFaithful(kids[1..], hasNext, more, below);
      AfterFirst(kids, hasNext, more, below);
      LinesFaithful(kids[0], hasNext + [flag], Depths(rest) + below);
      FaithfulConcat(first, rest, below);
    }
  }

  /** The context in which the first of some siblings is drawn. */
  lemma AfterFirst(kids: seq<Tree>, hasNext: seq<bool>, more: bool, below: seq<nat>)
    requires kids != [] && forall k :: 0 <= k < |hasNext| ==> (hasNext[k] <==> Continues(below, k))
    requires below != [] ==> below[0] <= |hasNext| + 1
    requires more <==> below != [] && below[0] == |hasNext| + 1
    ensures Context(hasNext + [|kids| > 1 || more], Depths(ForestLines(kids[1..], hasNext, more)) + below)
  {
    var rest := ForestLines(kids[1..], hasNext, more);
    var after := Depths(rest) + below;
    ForestDeep(kids[1..], hasNext, more);
    if |kids| > 1 {
      LinesDeep(kids[1], hasNext + [|kids[1..]| > 1 || more]);
      assert rest[0].hasNext == hasNext + [|kids[1..]| > 1 || more];
      assert after[0] == |hasNext| + 1;
    } else {
      assert after == below;
    }
    forall k | 0 <= k < |hasNext| ensures hasNext[k] <==> Continues(after, k) {
      SkipDeep(Depths(rest), below, k);
    }
  }

  lemma {:induction false} ContinuesAt(ds: seq<nat>, k: nat)
    ensures Continues(ds, k) <==>
            exists j :: 0 <= j < |ds| && ds[j] == k + 1 && forall m :: 0 <= m < j ==> ds[m] > k
  {
    if ds != [] && ds[0] > k + 1 {
      ContinuesAt(ds[1..], k);
      if Continues(ds, k) {
        var j :| 0 <= j < |ds| - 1 && ds[1..][j] == k + 1 && forall m :: 0 <= m < j ==> ds[1..][m] > k;
        assert ds[j + 1] == k + 1;
        assert forall m :: 1 <= m < j + 1 ==> ds[m] == ds[1..][m - 1];
      } else {
        forall j | 0 <= j < |ds| && ds[j] == k + 1 ensures exists m :: 0 <= m < j && ds[m] <= k {
          assert ds[1..][j - 1] == k + 1;
          var m :| 0 <= m < j - 1 && ds[1..][m] <= k;
          assert ds[m + 1] <= k;
        }
      }
    }
  }

  /** Entry j hangs below entry i at level k: it comes after i at depth k + 1, before any entry at depth k
      or less, so it is a later sibling of i's ancestor at that depth. */
  ghost predicate Hangs(depths: seq<nat>, i: nat, k: nat, j: nat) {
    && i < j < |depths| && depths[j] == k + 1
    && forall m :: i < m < j ==> depths[m] > k
  }

  lemma HangsIffContinues(depths: seq<nat>, i: nat, k: nat)
    requires i < |depths|
    ensures Continues(depths[i + 1..], k) <==> exists j :: Hangs(depths, i, k, j)
  {
    var below := depths[i + 1..];
    ContinuesAt(below, k);
    if j :| 0 <= j < |below| && below[j] == k + 1 && forall m :: 0 <= m < j ==> below[m] > k {
      assert forall m :: i < m < i + 1 + j ==> depths[m] == below[m - i - 1];
      assert Hangs(depths, i, k, i + 1 + j);
    }
    if j: nat :| Hangs(depths, i, k, j) {
      assert forall m :: 0 <= m < j - i - 1 ==> below[m] == depths[i + 1 + m];
      assert below[j - i - 1] == k + 1;
    }
  }

  function RowDepths(rows: seq<Row>): (r: seq<nat>)
    ensures |r| == |rows|
  {
    seq(|rows|, i requires 0 <= i < |rows| => Depth(rows[i]))
  }

  lemma RowDepthsMatch(lines: seq<Line>)
    ensures RowDepths(Rows(lines)) == Depths(lines)
  {
    forall i | 0 <= i < |lines| ensures Depth(Rows(lines)[i]) == |lines[i].hasNext| {
      PrefixCells(lines[i].hasNext);
    }
  }

  /** A vertical line is drawn at level k of a row exactly when a later sibling of that row's ancestor at
      depth k + 1 is still to come. */
  lemma GlyphsMeanSiblings(t: Tree, i: nat, k: nat)
    requires i < |Draw(t)| && k < Depth(Draw(t)[i])
    ensures 3 * k < |Draw(t)[i].prefix|
    ensures LineAt(Draw(t)[i].prefix, k) <==> exists j :: Hangs(RowDepths(Draw(t)), i, k, j)
  {
    var lines := Lines(t, []);
    LinesFaithful(t, [], []);
    RowDepthsMatch(lines);
    PrefixCells(lines[i].hasNext);
    assert Depths(lines)[i + 1..] + [] == Depths(lines)[i + 1..];
    HangsIffContinues(Depths(lines), i, k);
  }

  /** The three cells drawn at level k. */
  function CellsAt(prefix: string, k: nat): string
    requires 3 * k + 3 <= |prefix|
  {
    prefix[3 * k..3 * k + 3]
  }

  lemma {:induction false} StemGlyphs(hasNext: seq<bool>, k: nat)
    requires k < |hasNext|
    ensures |Stem(hasNext)| == 3 * |hasNext|
    ensures CellsAt(Stem(hasNext), k) == if hasNext[k] then "│  " else "   "
  {
    var init := hasNext[..|hasNext| - 1];
    StemCells(hasNext);
    StemCells(init);
    if k < |init| {
      StemGlyphs(init, k);
      assert CellsAt(Stem(hasNext), k) == CellsAt(Stem(init), k);
    }
  }

  lemma PrefixGlyphs(hasNext: seq<bool>, k: nat)
    requires k < |hasNext|
    ensures |PrefixOf(hasNext)| == 3 * |hasNext|
    ensures CellsAt(PrefixOf(hasNext), k) ==
            if k == |hasNext| - 1 then (if hasNext[k] then "├─ " else "└─ ")
            else if hasNext[k] then "│  " else "   "
  {
    var init := hasNext[..|hasNext| - 1];
    PrefixCells(hasNext);
    StemCells(init);
    if k < |init| {
      StemGlyphs(init, k);
      assert CellsAt(PrefixOf(hasNext), k) == CellsAt(Stem(init), k);
    }
  }

  /** The exact cells: a row's own level shows a tee when a sibling follows and a corner when none does, and its
      ancestors' levels show a pipe or blanks for the same reason. */
  lemma GlyphsExact(t: Tree, i: nat, k: nat)
    requires i < |Draw(t)| && k < Depth(Draw(t)[i])
    ensures |Draw(t)[i].prefix| == 3 * Depth(Draw(t)[i])
    ensures var follows := exists j :: Hangs(RowDepths(Draw(t)), i, k, j);
            CellsAt(Draw(t)[i].prefix, k) ==
            if k == Depth(Draw(t)[i]) - 1 then (if follows then "├─ " else "└─ ")
            else if follows then "│  " else "   "
  {
    var lines := Lines(t, []);
    RowDepthsMatch(lines);
    PrefixCells(lines[i].hasNext);
    assert RowDepths(Draw(t))[i] == Depths(lines)[i];
    GlyphsMeanSiblings(t, i, k);
    PrefixGlyphs(lines[i].hasNext, k);
  }

  // ---- reading the drawing back ----------------------------------------------------------------

  type Cell = (Span, nat)

  /** All the reader keeps of a row: its span and how far its prefix indents it. */
  function ReadRows(rows: seq<Row>): (r: seq<Cell>)
    ensures |r| == |rows|
  {
    seq(|rows|, i requires 0 <= i < |rows| => (rows[i].span, Depth(rows[i])))
  }

  function Cells(lines: seq<Line>): (r: seq<Cell>)
    ensures |r| == |lines|
  {
    seq(|lines|, i requires 0 <= i < |lines| => (lines[i].span, |lines[i].hasNext|))
  }

  /** The forest that starts at this depth, and the cells left over. */
  function Undraw(cells: seq<Cell>, depth: nat): (r: (seq<Tree>, seq<Cell>))
    ensures |r.1| <= |cells|
    decreases |cells|
  {
    if cells == [] || cells[0].1 != depth then ([], cells)
    else
      var inner := Undraw(cells[1..], depth + 1);
      var outer := Undraw(inner.1, depth);
      ([Node(cells[0].0, inner.0)] + outer.0, outer.1)
  }

  lemma {:induction false} UndrawForest(kids: seq<Tree>, hasNext: seq<bool>, more: bool, rest: seq<Cell>)
    requires rest != [] ==> rest[0].1 <= |hasNext|
    ensures Undraw(Cells(ForestLines(kids, hasNext, more)) + rest, |hasNext| + 1) == (kids, rest)
    decreases kids, 0
  {
    if kids == [] {
      assert Cells(ForestLines(kids, hasNext, more)) + rest == rest;
    } else {
      var flags := hasNext + [|kids| > 1 || more];
      var tail := Cells(ForestLines(kids[1..], hasNext, more)) + rest;
      UndrawForest(kids[1..], hasNext, more, rest);
      ForestStartsAt(kids[1..], hasNext, more, rest);
      UndrawTree(kids[0], flags, tail);
      CellsConcat(Lines(kids[0], flags), ForestLines(kids[1..], hasNext, more), rest);
      assert [Node(kids[0].span, kids[0].kids)] + kids[1..] == kids;
    }
  }

  lemma ForestStartsAt(kids: seq<Tree>, hasNext: seq<bool>, more: bool, rest: seq<Cell>)
    requires rest != [] ==> rest[0].1 <= |hasNext|
    ensures var tail := Cells(ForestLines(kids, hasNext, more)) + rest;
            tail != [] ==> tail[0].1 <= |hasNext| + 1
  {
    if kids != [] { LinesDeep(kids[0], hasNext + [|kids| > 1 || more]); }
  }

  lemma CellsConcat(a: seq<Line>, b: seq<Line>, rest: seq<Cell>)
    ensures Cells(a + b) + rest == Cells(a) + (Cells(b) + rest)
  {
  }

  lemma {:induction false} UndrawTree(t: Tree, flags: seq<bool>, tail: seq<Cell>)
    requires tail != [] ==> tail[0].1 <= |flags|
    ensures var all := Cells(Lines(t, flags)) + tail;
            all != [] && all[0] == (t.span, |flags|)
            && Undraw(all[1..], |flags| + 1) == (t.kids, tail)
    decreases t, 1
  {
    UndrawForest(t.kids, flags, false, tail);
    assert (Cells(Lines(t, flags)) + tail)[1..] == Cells(ForestLines(t.kids, flags, false)) + tail;
  }

  /** The printed rows alone determine the tree: reading a drawing back returns what was drawn. */
  lemma DrawingRoundTrip(t: Tree)
    ensures Undraw(ReadRows(Draw(t)), 0) == ([t], [])
  {
    var lines := Lines(t, []);
    RowDepthsMatch(lines);
    assert forall i :: 0 <= i < |lines| ==> RowDepths(Rows(lines))[i] == |lines[i].hasNext|;
    assert ReadRows(Draw(t)) == Cells(lines);
    UndrawTree(t, [], []);
    assert Cells(lines) + [] == Cells(lines);
    assert Undraw([], 0) == ([], []);
    assert [t] == [Node(t.span, t.kids)] + [];
  }
}
