// The depth-first walk that lists a trace's spans: internal/tui/panels/traces.go, walkTraceDFS.
module TraceWalk {
  import opened Common
  import opened TraceModel
  import opened TraceMaps
  import opened TreeDrawing

  type Children = map<string, seq<Span>>

  ghost predicate SortedByStart(s: seq<Span>) {
    forall i, j :: 0 <= i <= j < |s| ==> s[i].start <= s[j].start
  }

  /** Every span of the trace. */
  ghost function AllSpans(ch: Children, root: Span): set<Span> {
    {root} + set p, i | p in ch && 0 <= i < |ch[p]| :: ch[p][i]
  }

  /** What assembly guarantees of a trace with one root and pairwise distinct span IDs. */
  ghost predicate WellFormed(ch: Children, root: Span) {
    && IsRoot(root)
    && (forall p, s :: p in ch && s in ch[p] ==> s.parentID == p && !IsRoot(s))
    && (forall p :: p in ch ==> NoDup(ch[p]))
    && (forall s, u :: s in AllSpans(ch, root) && u in AllSpans(ch, root) && s.spanID == u.spanID ==> s == u)
  }

  /** Same children up to the order of siblings. */
  ghost predicate SameKids(ch: Children, ch0: Children) {
    ch.Keys == ch0.Keys && forall p :: p in ch ==> multiset(ch[p]) == multiset(ch0[p])
  }

  function Heads(kids: seq<Tree>): (r: seq<Span>)
    ensures |r| == |kids|
  {
    seq(|kids|, i requires 0 <= i < |kids| => kids[i].span)
  }

  /** t lists, at every node, that span's children in start order. */
  ghost predicate IsTreeOf(t: Tree, ch: Children) {
    && SortedByStart(Heads(t.kids))
    && multiset(Heads(t.kids)) == multiset(Kids(ch, t.span.spanID))
    && forall i :: 0 <= i < |t.kids| ==> IsTreeOf(t.kids[i], ch)
  }

  // ---- parent chains -------------------------------------------------------------------------

  lemma InAll(ch: Children, root: Span, p: string, s: Span)
    requires s in Kids(ch, p)
    ensures s in AllSpans(ch, root)
  {
    var i :| 0 <= i < |ch[p]| && ch[p][i] == s;
  }

  /** path runs from the root down to its last span, each step to a child. */
  ghost predicate IsPath(path: seq<Span>, ch: Children, root: Span) {
    && path != [] && path[0] == root
    && forall i :: 0 < i < |path| ==> path[i] in Kids(ch, path[i - 1].spanID)
  }

  lemma PathSpans(path: seq<Span>, ch: Children, root: Span)
    requires IsPath(path, ch, root)
    ensures forall i :: 0 <= i < |path| ==> path[i] in AllSpans(ch, root)
  {
    forall i | 0 <= i < |path| ensures path[i] in AllSpans(ch, root) {
      if i > 0 { InAll(ch, root, path[i - 1].spanID, path[i]); }
    }
  }

  /** Two positions with the same span have equal predecessors, down to the root: no span repeats. */
  lemma {:induction false} PathNoRepeat(path: seq<Span>, ch: Children, root: Span, i: nat, j: nat)
    requires WellFormed(ch, root) && IsPath(path, ch, root)
    requires i < j < |path|
    ensures path[i] != path[j]
    decreases i
  {
    PathSpans(path, ch, root);
    assert path[j] in Kids(ch, path[j - 1].spanID);
    if path[i] == path[j] {
      if i > 0 {
        assert path[i] in Kids(ch, path[i - 1].spanID);
        assert path[i - 1].spanID == path[j - 1].spanID;
        PathNoRepeat(path, ch, root, i - 1, j - 1);
      }
    }
  }

  lemma {:induction false} NoDupFits(path: seq<Span>, all: set<Span>)
    requires NoDup(path) && forall i :: 0 <= i < |path| ==> path[i] in all
    ensures |path| <= |all|
  {
    if path != [] {
      var last := path[|path| - 1];
      NoDupFits(path[..|path| - 1], all - {last});
    }
  }

  /** No path from the root meets a span twice. */
  ghost predicate NeverRepeats(ch: Children, root: Span) {
    forall path :: IsPath(path, ch, root) ==> NoDup(path)
  }

  /** One root and distinct span IDs are enough for that. */
  lemma WellFormedNeverRepeats(ch: Children, root: Span)
    requires WellFormed(ch, root)
    ensures NeverRepeats(ch, root)
  {
    forall path | IsPath(path, ch, root) ensures NoDup(path) {
      forall i, j | 0 <= i < j < |path| ensures path[i] != path[j] { PathNoRepeat(path, ch, root, i, j); }
    }
  }

  /** The termination measure: a path never outgrows the set of spans. */
  lemma PathFits(path: seq<Span>, ch: Children, root: Span)
    requires NeverRepeats(ch, root) && IsPath(path, ch, root)
    ensures |path| <= |AllSpans(ch, root)|
  {
    PathSpans(path, ch, root);
    NoDupFits(path, AllSpans(ch, root));
  }

  // ---- the walk ------------------------------------------------------------------------------

  /** sort.Slice by StartTime: ascending, with ties in any order. */
  method SortByStart(kids: seq<Span>) returns (r: seq<Span>)
    ensures SortedByStart(r) && multiset(r) == multiset(kids)
  {
    r := [];
    for i := 0 to |kids|
      invariant SortedByStart(r) && multiset(r) == multiset(kids[..i])
    {
      r := InsertByStart(r, kids[i]);
      assert kids[..i + 1] == kids[..i] + [kids[i]];
    }
    assert kids[..|kids|] == kids;
  }

  method InsertByStart(r: seq<Span>, s: Span) returns (t: seq<Span>)
    requires SortedByStart(r)
    ensures SortedByStart(t) && multiset(t) == multiset(r) + multiset{s}
  {
    var k: nat := |r|;
    while k > 0 && r[k - 1].start > s.start
      invariant 0 <= k <= |r| && forall i :: k <= i < |r| ==> r[i].start > s.start
    {
      k := k - 1;
    }
    t := r[..k] + [s] + r[k..];
    Spliced(r, s, k);
  }

  lemma Spliced(r: seq<Span>, s: Span, k: nat)
    requires k <= |r|
    ensures multiset(r[..k] + [s] + r[k..]) == multiset(r) + multiset{s}
  {
    assert r == r[..k] + r[k..];
  }

  class RowBuffer {
    var rows: seq<Row>

    constructor ()
      ensures rows == []
    {
      rows := [];
    }
  }

  /** Appends the rows of the subtree at span to out, sorting the child lists it meets in place. The recursion
      ends exactly because no path repeats a span (TraceFinite.WalkEndsIff). The ghost path records the recursion and
      ch0 the children as they were before the walk began. */
  method WalkTraceDFS(tr: Trace, span: Option<Span>, ancestorsHasNext: seq<bool>, out: RowBuffer,
                      ghost ch0: Children, ghost root: Span, ghost path: seq<Span>)
    returns (ghost tree: Option<Tree>)
    requires NeverRepeats(ch0, root) && SameKids(tr.children, ch0)
    requires span.Some? ==> IsPath(path, ch0, root) && path[|path| - 1] == span.value
    modifies tr`children, out
    ensures SameKids(tr.children, ch0)
    ensures span.None? ==> out.rows == old(out.rows) && tr.children == old(tr.children)
    ensures span.Some? ==>
              && tree.Some? && tree.value.span == span.value && IsTreeOf(tree.value, ch0)
              && out.rows == old(out.rows) + Rows(Lines(tree.value, ancestorsHasNext))
    decreases |AllSpans(ch0, root)| - |path|, 1
  {
    if span.None? { return None; }
    var s := span.value;
    PathFits(path, ch0, root);
    var prefix := BuildTreePrefix(ancestorsHasNext);
    ghost var before := out.rows;
    out.rows := out.rows + [Row(s, prefix)];
    var kids := SortKidsInPlace(tr, s.spanID, ch0);
    ghost var forest := WalkKids(tr, kids, ancestorsHasNext, out, ch0, root, path);
    tree := Some(Node(s, forest));
    NodeIsTree(s, forest, kids, ch0);
    NodeRows(before, s, forest, ancestorsHasNext);
  }

  /** The loop of walkTraceDFS over the sorted children. */
  method WalkKids(tr: Trace, kids: seq<Span>, ancestorsHasNext: seq<bool>, out: RowBuffer,
                  ghost ch0: Children, ghost root: Span, ghost path: seq<Span>)
    returns (ghost forest: seq<Tree>)
    requires NeverRepeats(ch0, root) && SameKids(tr.children, ch0) && IsPath(path, ch0, root)
    requires |path| <= |AllSpans(ch0, root)|
    requires multiset(kids) == multiset(Kids(ch0, path[|path| - 1].spanID))
    modifies tr`children, out
    ensures SameKids(tr.children, ch0)
    ensures |forest| == |kids| && Walked(forest, kids, ch0)
    ensures out.rows == old(out.rows) + Rows(ForestLines(forest, ancestorsHasNext, false))
    decreases |AllSpans(ch0, root)| - |path|, 0
  {
    forest := [];
    ghost var start := out.rows;
    for i := 0 to |kids|
      invariant SameKids(tr.children, ch0)
      invariant |forest| == i && Walked(forest, kids, ch0)
      invariant out.rows == start + Rows(ForestLines(forest, ancestorsHasNext, i < |kids|))
    {
      var c := kids[i];
      var isLast := i == |kids| - 1;
      StepDown(path, c, kids, ch0, root);
      PathFits(path + [c], ch0, root);
      ghost var sub := WalkTraceDFS(tr, Some(c), ancestorsHasNext + [!isLast], out, ch0, root, path + [c]);
      ForestRowsAppend(start, forest, sub.value, ancestorsHasNext, !isLast);
      WalkedNext(forest, sub.value, kids, ch0);
      forest := forest + [sub.value];
    }
  }

  /** The child list is shared with the map, so sorting it reorders the map's own list. */
  method SortKidsInPlace(tr: Trace, id: string, ghost ch0: Children) returns (kids: seq<Span>)
    requires SameKids(tr.children, ch0)
    modifies tr`children
    ensures SameKids(tr.children, ch0)
    ensures SortedByStart(kids) && multiset(kids) == multiset(Kids(ch0, id))
    ensures Kids(tr.children, id) == kids
    ensures forall p :: p in tr.children && p != id ==> tr.children[p] == old(tr.children[p])
  {
    kids := SortByStart(Kids(tr.children, id));
    if id in tr.children {
      tr.children := tr.children[id := kids];
    }
  }

  lemma StepDown(path: seq<Span>, c: Span, kids: seq<Span>, ch: Children, root: Span)
    requires IsPath(path, ch, root) && c in kids
    requires multiset(kids) == multiset(Kids(ch, path[|path| - 1].spanID))
    ensures IsPath(path + [c], ch, root)
  {
    assert c in multiset(kids);
  }

  lemma ForestRowsAppend(start: seq<Row>, forest: seq<Tree>, t: Tree, hasNext: seq<bool>, more: bool)
    ensures start + Rows(ForestLines(forest, hasNext, true)) + Rows(Lines(t, hasNext + [more]))
         == start + Rows(ForestLines(forest + [t], hasNext, more))
  {
    ForestLinesAppend(forest, t, hasNext, more);
    RowsConcat(ForestLines(forest, hasNext, true), Lines(t, hasNext + [more]));
  }

  /** The subtrees walked so far belong to the first children. */
  ghost predicate Walked(forest: seq<Tree>, kids: seq<Span>, ch: Children) {
    |forest| <= |kids| && forall j :: 0 <= j < |forest| ==> forest[j].span == kids[j] && IsTreeOf(forest[j], ch)
  }

  lemma WalkedNext(forest: seq<Tree>, t: Tree, kids: seq<Span>, ch: Children)
    requires Walked(forest, kids, ch) && |forest| < |kids| && t.span == kids[|forest|] && IsTreeOf(t, ch)
    ensures Walked(forest + [t], kids, ch)
  {
  }

  lemma NodeIsTree(s: Span, forest: seq<Tree>, kids: seq<Span>, ch: Children)
    requires SortedByStart(kids) && multiset(kids) == multiset(Kids(ch, s.spanID))
    requires |forest| == |kids| && Walked(forest, kids, ch)
    ensures IsTreeOf(Node(s, forest), ch)
  {
    assert Heads(forest) == kids;
  }

  lemma NodeRows(before: seq<Row>, s: Span, forest: seq<Tree>, hasNext: seq<bool>)
    ensures before + [Row(s, PrefixOf(hasNext))] + Rows(ForestLines(forest, hasNext, false))
         == before + Rows(Lines(Node(s, forest), hasNext))
  {
    RowsConcat([Line(s, hasNext)], ForestLines(forest, hasNext, false));
    assert Rows([Line(s, hasNext)]) == [Row(s, PrefixOf(hasNext))];
  }

  /** The panel's call: the rows of the selected trace, from its root. */
  method RenderRows(tr: Trace) returns (out: RowBuffer, ghost tree: Option<Tree>)
    requires tr.root.Some? ==> NeverRepeats(tr.children, tr.root.value)
    modifies tr`children
    ensures SameKids(tr.children, old(tr.children))
    ensures tr.root.None? ==> out.rows == []
    ensures tr.root.Some? ==>
              && tree.Some? && tree.value.span == tr.root.value && IsTreeOf(tree.value, old(tr.children))
              && out.rows == Draw(tree.value)
  {
    out := new RowBuffer();
    tree := None;
    if tr.root.Some? {
      tree := WalkTraceDFS(tr, tr.root, [], out, tr.children, tr.root.value, [tr.root.value]);
      assert [] + Draw(tree.value) == Draw(tree.value);
    }
  }
}
