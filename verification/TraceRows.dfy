// Order and number of the rows, and the walk of an assembled trace.
module TraceRows {
  import opened Common
  import opened TraceModel
  import opened TraceOrder
  import opened TreeDrawing
  import opened TraceWalk
  import opened TraceVisit

  // ---- parents come first ---------------------------------------------------------------------

  ghost predicate HasEarlierParent(s: seq<Span>, i: nat)
    requires i < |s|
  {
    exists j :: 0 <= j < i && s[j].spanID == s[i].parentID
  }

  lemma {:induction false} ParentsFirst(t: Tree, ch: Children, root: Span)
    requires WellFormed(ch, root) && IsTreeOf(t, ch)
    ensures forall i :: 0 < i < |Preorder(t)| ==> HasEarlierParent(Preorder(t), i)
    decreases t, 1
  {
    KidsOfNode(t, ch);
    var kids := ForestOrder(t.kids);
    ForestParentsFirst(t.kids, t.span, ch, root);
    forall i | 0 < i < |Preorder(t)| ensures HasEarlierParent(Preorder(t), i) {
      assert Preorder(t)[i] == kids[i - 1];
      if kids[i - 1].parentID == t.span.spanID {
        assert Preorder(t)[0].spanID == Preorder(t)[i].parentID;
      } else {
        var j :| 0 <= j < i - 1 && kids[j].spanID == kids[i - 1].parentID;
        assert Preorder(t)[j + 1] == kids[j];
      }
    }
  }

  lemma {:induction false} ForestParentsFirst(kids: seq<Tree>, p: Span, ch: Children, root: Span)
    requires WellFormed(ch, root) && KidsOf(kids, p, ch)
    ensures forall i :: 0 <= i < |ForestOrder(kids)| ==>
              ForestOrder(kids)[i].parentID == p.spanID || HasEarlierParent(ForestOrder(kids), i)
    decreases kids, 0
  {
    if kids != [] {
      ParentsFirst(kids[0], ch, root);
      ForestParentsFirst(kids[1..], p, ch, root);
      assert kids[0].span.parentID == p.spanID;
      var a, b := Preorder(kids[0]), ForestOrder(kids[1..]);
      var ab: seq<Span> := a + b;
      forall i | 0 <= i < |ab| ensures ab[i].parentID == p.spanID || HasEarlierParent(ab, i) {
        ConcatParent(a, b, i, p);
      }
    }
  }

  lemma ConcatParent(a: seq<Span>, b: seq<Span>, i: nat, p: Span)
    requires a != [] && a[0].parentID == p.spanID && i < |a + b|
    requires forall k :: 0 < k < |a| ==> HasEarlierParent(a, k)
    requires forall k :: 0 <= k < |b| ==> b[k].parentID == p.spanID || HasEarlierParent(b, k)
    ensures (a + b)[i].parentID == p.spanID || HasEarlierParent(a + b, i)
  {
    if 0 < i < |a| {
      assert HasEarlierParent(a, i);
      var j :| 0 <= j < i && a[j].spanID == a[i].parentID;
      assert (a + b)[j] == a[j];
    } else if i >= |a| && b[i - |a|].parentID != p.spanID {
      assert HasEarlierParent(b, i - |a|);
      var j :| 0 <= j < i - |a| && b[j].spanID == b[i - |a|].parentID;
      assert (a + b)[|a| + j] == b[j];
    }
  }

  lemma ParentListed(t: Tree, x: Span, ch: Children, root: Span) returns (p: Span)
    requires WellFormed(ch, root) && IsTreeOf(t, ch) && x in Preorder(t) && x != t.span
    ensures p in Preorder(t) && p.spanID == x.parentID
  {
    ParentsFirst(t, ch, root);
    var i :| 0 <= i < |Preorder(t)| && Preorder(t)[i] == x;
    assert HasEarlierParent(Preorder(t), i);
    var j :| 0 <= j < i && Preorder(t)[j].spanID == x.parentID;
    p := Preorder(t)[j];
  }

  // ---- siblings are in start order ---------------------------------------------------------------

  ghost predicate SiblingsSorted(s: seq<Span>) {
    forall i, j :: 0 <= i < j < |s| && s[i].parentID == s[j].parentID ==> s[i].start <= s[j].start
  }

  lemma SiblingsConcat(a: seq<Span>, b: seq<Span>)
    requires SiblingsSorted(a) && SiblingsSorted(b)
    requires forall x, y :: x in a && y in b && x.parentID == y.parentID ==> x.start <= y.start
    ensures SiblingsSorted(a + b)
  {
    forall i, j | 0 <= i < j < |a + b| && (a + b)[i].parentID == (a + b)[j].parentID
      ensures (a + b)[i].start <= (a + b)[j].start
    {
      if i < |a| <= j { assert a[i] in a && b[j - |a|] in b; }
    }
  }

  /** Inside a subtree no span shares the parent of the subtree's head. */
  lemma HeadHasNoSibling(t: Tree, y: Span, d: nat, ch: Children, root: Span)
    requires WellFormed(ch, root) && IsTreeOf(t, ch)
    requires t.span in AllSpans(ch, root) && Above(t.span, d, root, ch, root)
    requires y in ForestOrder(t.kids)
    ensures y.parentID != t.span.parentID
  {
    if y.parentID == t.span.parentID {
      KidsOfNode(t, ch);
      NotBelowItself(t.kids, t.span, d, ch, root);
      if d == 0 {
        ListedChild(t.kids, t.span, y, ch, root);
      } else {
        var q := ParentListed(t, y, ch, root);
        OwnParentNotBelow(t, q, d, ch, root);
      }
    }
  }

  lemma OwnParentNotBelow(t: Tree, q: Span, d: nat, ch: Children, root: Span)
    requires WellFormed(ch, root) && IsTreeOf(t, ch)
    requires t.span in AllSpans(ch, root) && Above(t.span, d, root, ch, root) && d > 0
    requires q.spanID == t.span.parentID
    ensures q !in Preorder(t)
  {
    if q in Preorder(t) {
      ListedIsBelow(t, q, ch, root);
      var n: nat :| Above(q, n, t.span, ch, root);
      ChainsDoNotLoop(q, n, t.span, d, ch, root);
    }
  }

  lemma ChainsDoNotLoop(q: Span, n: nat, c: Span, d: nat, ch: Children, root: Span)
    requires WellFormed(ch, root) && q in AllSpans(ch, root)
    requires Above(q, n, c, ch, root) && Above(c, d, root, ch, root) && d > 0
    ensures q.spanID != c.parentID
  {
    if q.spanID == c.parentID {
      assert ChildSpan(c, q, ch, root);
      AboveTransitive(q, n, c, d, root, ch, root);
      NoCycle(q, n, c, n + d, ch, root);
    }
  }

  lemma ListedChild(kids: seq<Tree>, p: Span, y: Span, ch: Children, root: Span)
    requires WellFormed(ch, root) && KidsOf(kids, p, ch) && p in AllSpans(ch, root) && y in ForestOrder(kids)
    ensures !IsRoot(y)
  {
    var k := ForestBelow(kids, p, y, ch, root);
    var n: nat :| Above(y, n, kids[k].span, ch, root);
    assert y in Kids(ch, y.parentID) || y == kids[k].span;
  }

  lemma {:induction false} TreeSiblings(t: Tree, d: nat, ch: Children, root: Span)
    requires WellFormed(ch, root) && IsTreeOf(t, ch)
    requires t.span in AllSpans(ch, root) && Above(t.span, d, root, ch, root)
    ensures SiblingsSorted(Preorder(t))
    decreases t, 1
  {
    KidsOfNode(t, ch);
    HeadsDistinct(t, ch, root);
    ForestSiblings(t.kids, t.span, d, ch, root);
    forall y | y in ForestOrder(t.kids) ensures y.parentID != t.span.parentID {
      HeadHasNoSibling(t, y, d, ch, root);
    }
    SiblingsConcat([t.span], ForestOrder(t.kids));
  }

  lemma {:induction false} ForestSiblings(kids: seq<Tree>, p: Span, d: nat, ch: Children, root: Span)
    requires WellFormed(ch, root) && KidsOf(kids, p, ch)
    requires NoDup(Heads(kids)) && SortedByStart(Heads(kids))
    requires p in AllSpans(ch, root) && Above(p, d, root, ch, root)
    ensures SiblingsSorted(ForestOrder(kids))
    decreases kids, 0
  {
    hide WellFormed, KidsOf, Above, AllSpans;
    if kids != [] {
      HeadsTail(kids);
      KidsTail(kids, p, ch);
      ForestSiblings(kids[1..], p, d, ch, root);
      FirstChild(kids, p, d, ch, root);
      TreeSiblings(kids[0], d + 1, ch, root);
      JoinSiblings(kids, p, d, ch, root);
    }
  }

  lemma JoinSiblings(kids: seq<Tree>, p: Span, d: nat, ch: Children, root: Span)
    requires WellFormed(ch, root) && kids != [] && KidsOf(kids, p, ch)
    requires NoDup(Heads(kids)) && SortedByStart(Heads(kids))
    requires p in AllSpans(ch, root) && Above(p, d, root, ch, root)
    requires SiblingsSorted(Preorder(kids[0])) && SiblingsSorted(ForestOrder(kids[1..]))
    ensures SiblingsSorted(ForestOrder(kids))
  {
    forall x, y | x in Preorder(kids[0]) && y in ForestOrder(kids[1..]) && x.parentID == y.parentID
      ensures x.start <= y.start
    {
      AcrossSubtrees(kids, p, d, x, y, ch, root);
    }
    SiblingsConcat(Preorder(kids[0]), ForestOrder(kids[1..]));
  }

  lemma HeadsTail(kids: seq<Tree>)
    requires kids != [] && NoDup(Heads(kids)) && SortedByStart(Heads(kids))
    ensures NoDup(Heads(kids[1..])) && SortedByStart(Heads(kids[1..]))
  {
    assert Heads(kids)[1..] == Heads(kids[1..]);
  }

  /** Spans of two different subtrees share a parent only when they are the subtrees' heads. */
  lemma AcrossSubtrees(kids: seq<Tree>, p: Span, d: nat, x: Span, y: Span, ch: Children, root: Span)
    requires WellFormed(ch, root) && kids != [] && KidsOf(kids, p, ch)
    requires NoDup(Heads(kids)) && SortedByStart(Heads(kids))
    requires p in AllSpans(ch, root) && Above(p, d, root, ch, root)
    requires x in Preorder(kids[0]) && y in ForestOrder(kids[1..]) && x.parentID == y.parentID
    ensures x.start <= y.start
  {
    var j := ForestFind(kids[1..], y);
    HeadOnly(kids, p, d, x, y, j, ch, root);
    LaterHeadOnly(kids, p, d, x, y, j + 1, ch, root);
    HeadsOrdered(kids, j + 1);
  }

  lemma HeadsOrdered(kids: seq<Tree>, j: nat)
    requires j < |kids| && SortedByStart(Heads(kids))
    ensures kids[0].span.start <= kids[j].span.start
  {
    assert Heads(kids)[0].start <= Heads(kids)[j].start;
  }

  lemma HeadOnly(kids: seq<Tree>, p: Span, d: nat, x: Span, y: Span, j: nat, ch: Children, root: Span)
    requires WellFormed(ch, root) && kids != [] && KidsOf(kids, p, ch) && NoDup(Heads(kids))
    requires p in AllSpans(ch, root) && Above(p, d, root, ch, root)
    requires x in Preorder(kids[0]) && j < |kids[1..]| && y in Preorder(kids[1..][j]) && x.parentID == y.parentID
    ensures x == kids[0].span
  {
    if x != kids[0].span {
      var q := ParentListed(kids[0], x, ch, root);
      NotElsewhere(kids, p, d, q, y, j, ch, root);
    }
  }

  /** A span listed below the first child is no parent of a span below another child. */
  lemma NotElsewhere(kids: seq<Tree>, p: Span, d: nat, q: Span, y: Span, j: nat, ch: Children, root: Span)
    requires WellFormed(ch, root) && kids != [] && KidsOf(kids, p, ch) && NoDup(Heads(kids))
    requires p in AllSpans(ch, root) && Above(p, d, root, ch, root)
    requires q in Preorder(kids[0]) && j < |kids[1..]| && y in Preorder(kids[1..][j])
    ensures q.spanID != y.parentID
  {
    InForest(kids, 0, q);
    var k := ForestBelow(kids, p, q, ch, root);
    NotBelowItself(kids, p, d, ch, root);
    SubtreesDisjoint(kids, p, d, q, ch, root);
    KidsTail(kids, p, ch);
    if q.spanID == y.parentID {
      SameParent(kids[1..], j, p, y, q, ch, root);
    }
  }

  lemma HeadParent(kids: seq<Tree>, p: Span, ch: Children, root: Span)
    requires WellFormed(ch, root) && kids != [] && KidsOf(kids, p, ch)
    ensures kids[0].span.parentID == p.spanID
  {
  }

  lemma LaterHeadOnly(kids: seq<Tree>, p: Span, d: nat, x: Span, y: Span, j: nat, ch: Children, root: Span)
    requires WellFormed(ch, root) && KidsOf(kids, p, ch)
    requires p in AllSpans(ch, root) && Above(p, d, root, ch, root)
    requires 0 < j < |kids| && x == kids[0].span && y in Preorder(kids[j]) && x.parentID == y.parentID
    ensures y == kids[j].span
  {
    if y != kids[j].span {
      var q := ParentListed(kids[j], y, ch, root);
      InForest(kids, j, q);
      HeadParent(kids, p, ch, root);
      ListedIn(kids, p, q, ch, root);
      NotBelowItself(kids, p, d, ch, root);
    }
  }

  lemma ListedIn(kids: seq<Tree>, p: Span, q: Span, ch: Children, root: Span)
    requires WellFormed(ch, root) && KidsOf(kids, p, ch) && p in AllSpans(ch, root)
    requires q in ForestOrder(kids) && q.spanID == p.spanID
    ensures p in ForestOrder(kids)
  {
    var k := ForestBelow(kids, p, q, ch, root);
  }

  /** The parent q of y is listed with y, or is the common parent p. */
  lemma SameParent(kids: seq<Tree>, j: nat, p: Span, y: Span, q: Span, ch: Children, root: Span)
    requires WellFormed(ch, root) && KidsOf(kids, p, ch) && p in AllSpans(ch, root)
    requires j < |kids| && y in Preorder(kids[j]) && q in AllSpans(ch, root) && q.spanID == y.parentID
    ensures q == p || q in ForestOrder(kids)
  {
    if y != kids[j].span {
      var r := ParentListed(kids[j], y, ch, root);
      InForest(kids, j, r);
      var k := ForestBelow(kids, p, r, ch, root);
      SameSpan(q, r, ch, root);
    } else {
      ChildAbove(y, p, ch, root);
      SameSpan(q, p, ch, root);
    }
  }

  lemma SameSpan(q: Span, r: Span, ch: Children, root: Span)
    requires WellFormed(ch, root) && q in AllSpans(ch, root) && r in AllSpans(ch, root) && q.spanID == r.spanID
    ensures q == r
  {
  }

  /** In the printed rows every parent is above its children, and siblings appear in start order. */
  lemma RowsOrdered(t: Tree, ch: Children)
    requires WellFormed(ch, t.span) && IsTreeOf(t, ch)
    ensures forall i :: 0 < i < |Draw(t)| ==>
              exists j :: 0 <= j < i && Draw(t)[j].span.spanID == Draw(t)[i].span.parentID
    ensures forall i, j :: 0 <= i < j < |Draw(t)| && Draw(t)[i].span.parentID == Draw(t)[j].span.parentID ==>
              Draw(t)[i].span.start <= Draw(t)[j].span.start
  {
    DrawnSpans(t);
    ParentsFirst(t, ch, t.span);
    TreeSiblings(t, 0, ch, t.span);
    forall i | 0 < i < |Draw(t)| ensures exists j :: 0 <= j < i && Draw(t)[j].span.spanID == Draw(t)[i].span.parentID {
      assert HasEarlierParent(Preorder(t), i);
      var j :| 0 <= j < i && Preorder(t)[j].spanID == Preorder(t)[i].parentID;
      assert Draw(t)[j].span == Preorder(t)[j];
    }
  }

  // ---- how many rows ----------------------------------------------------------------------------

  ghost function KidSet(ch: Children): set<Span> {
    set p, i | p in ch && 0 <= i < |ch[p]| :: ch[p][i]
  }

  ghost function SetOf(s: seq<Span>): set<Span> { set i | 0 <= i < |s| :: s[i] }

  lemma {:induction false} SetOfSize(s: seq<Span>)
    requires NoDup(s)
    ensures |SetOf(s)| == |s|
  {
    if s != [] {
      var init, last := s[..|s| - 1], s[|s| - 1];
      SetOfSize(init);
      assert forall i :: 0 <= i < |init| ==> init[i] == s[i];
      assert SetOf(s) == SetOf(init) + {last};
      assert last !in SetOf(init);
    }
  }

  ghost predicate Filed(ch: Children) {
    && (forall p, s :: p in ch && s in ch[p] ==> s.parentID == p)
    && (forall p :: p in ch ==> NoDup(ch[p]))
  }

  lemma {:induction false} KidSetSize(ch: Children)
    requires Filed(ch)
    ensures |KidSet(ch)| == SumLens(ch)
    decreases |ch|
  {
    if ch.Keys == {} {
      assert KidSet(ch) == {};
    } else {
      var k :| k in ch;
      var rest := ch - {k};
      assert rest.Keys == ch.Keys - {k};
      SumLensRemove(ch, k);
      KidSetSize(rest);
      KidSetSplit(ch, k);
      SetOfSize(ch[k]);
    }
  }

  lemma KidSetSplit(ch: Children, k: string)
    requires Filed(ch) && k in ch
    ensures KidSet(ch) == KidSet(ch - {k}) + SetOf(ch[k])
    ensures KidSet(ch - {k}) !! SetOf(ch[k])
  {
    var rest := ch - {k};
    forall s | s in KidSet(ch) ensures s in KidSet(rest) + SetOf(ch[k]) {
      var p, i :| p in ch && 0 <= i < |ch[p]| && ch[p][i] == s;
      if p != k { assert p in rest && rest[p][i] == s; }
    }
    forall s | s in KidSet(rest) ensures s in KidSet(ch) && s !in SetOf(ch[k]) {
      var p, i :| p in rest && 0 <= i < |rest[p]| && rest[p][i] == s;
      assert p in ch && ch[p][i] == s && s in ch[p];
    }
    forall s | s in SetOf(ch[k]) ensures s in KidSet(ch) {
      var i :| 0 <= i < |ch[k]| && ch[k][i] == s;
    }
  }

  lemma AllSpansSize(ch: Children, root: Span)
    requires WellFormed(ch, root)
    ensures |AllSpans(ch, root)| == 1 + SumLens(ch)
  {
    WellFormedIsFiled(ch, root);
    KidSetSize(ch);
    assert AllSpans(ch, root) == {root} + KidSet(ch);
  }

  lemma WellFormedIsFiled(ch: Children, root: Span)
    requires WellFormed(ch, root)
    ensures Filed(ch) && root !in KidSet(ch)
  {
    forall p, i | p in ch && 0 <= i < |ch[p]| ensures ch[p][i] != root { assert ch[p][i] in ch[p]; }
  }

  /** The waterfall has at most as many rows as the trace counts spans, and exactly as many when no span
      is cut off from the root. */
  lemma RowCount(t: Tree, v: TraceV)
    requires v.root == Some(t.span) && WellFormed(v.children, t.span) && IsTreeOf(t, v.children)
    ensures |Draw(t)| <= SpanCount(v)
    ensures |Draw(t)| == SpanCount(v) <==>
            forall s :: s in AllSpans(v.children, t.span) ==> Connected(s, v.children, t.span)
  {
    hide WellFormed, IsTreeOf, Connected;
    var ch, all := v.children, AllSpans(v.children, t.span);
    AllSpansSize(ch, t.span);
    DrawnSpans(t);
    WalkVisitsConnected(t, ch);
    ListedOnce(t, 0, ch, t.span);
    var listed := SetOf(Preorder(t));
    SetOfSize(Preorder(t));
    forall s ensures s in listed <==> Connected(s, ch, t.span) {
      if s in listed {
        var i :| 0 <= i < |Draw(t)| && Preorder(t)[i] == s;
        assert Draw(t)[i].span == s;
      }
    }
    forall s | s in listed ensures s in all { ListedIsBelow(t, s, ch, t.span); }
    SubsetSize(listed, all);
  }

  lemma SubsetSize(a: set<Span>, b: set<Span>)
    requires a <= b
    ensures |a| <= |b|
    ensures |a| == |b| <==> forall s :: s in b ==> s in a
  {
    assert b == a + (b - a);
    assert |b| == |a| + |b - a|;
    if |a| == |b| { assert b - a == {}; }
    if forall s :: s in b ==> s in a { assert b - a == {}; }
  }

  // ---- an assembled trace ---------------------------------------------------------------------------

  ghost predicate DistinctIDs(fs: seq<Span>) {
    forall i, j :: 0 <= i < j < |fs| ==> fs[i].spanID != fs[j].spanID
  }

  lemma {:induction false} FilterNoDup(fs: seq<Span>, p: Span -> bool)
    requires DistinctIDs(fs)
    ensures NoDup(Filter(fs, p))
  {
    if fs != [] {
      var init, last := fs[..|fs| - 1], fs[|fs| - 1];
      FilterNoDup(init, p);
      FilterMember(init, last, p);
      assert last !in init;
    }
  }

  lemma KidArrived(fs: seq<Span>, t: TraceV, p: string, s: Span)
    requires ChildrenMatch(t.children, fs) && p in t.children && s in t.children[p]
    ensures s in fs && s.parentID == p && !IsRoot(s)
  {
    assert s in Kids(t.children, p);
    FilterMember(fs, s, ChildOf(p));
  }

  lemma KeptIsArrived(fs: seq<Span>, t: TraceV, s: Span)
    requires ChildrenMatch(t.children, fs) && t.root.Some? && t.root == LastRoot(fs)
    requires s in AllSpans(t.children, t.root.value)
    ensures s in fs
  {
    LastRootIsRoot(fs);
    if s != t.root.value {
      var p, i :| p in t.children && 0 <= i < |t.children[p]| && t.children[p][i] == s;
      KidArrived(fs, t, p, s);
    }
  }

  lemma SameIdSameSpan(fs: seq<Span>, s: Span, u: Span)
    requires DistinctIDs(fs) && s in fs && u in fs && s.spanID == u.spanID
    ensures s == u
  {
    var i :| 0 <= i < |fs| && fs[i] == s;
    var j :| 0 <= j < |fs| && fs[j] == u;
  }

  lemma DescribedIsWellFormed(fs: seq<Span>, t: TraceV)
    requires ChildrenMatch(t.children, fs) && t.root.Some? && t.root == LastRoot(fs) && DistinctIDs(fs)
    ensures WellFormed(t.children, t.root.value)
  {
    var root := t.root.value;
    LastRootIsRoot(fs);
    forall p, s | p in t.children && s in t.children[p] ensures s.parentID == p && !IsRoot(s) {
      KidArrived(fs, t, p, s);
    }
    forall p | p in t.children ensures NoDup(t.children[p]) {
      assert t.children[p] == Kids(t.children, p);
      FilterNoDup(fs, ChildOf(p));
    }
    forall s, u | s in AllSpans(t.children, root) && u in AllSpans(t.children, root) && s.spanID == u.spanID
      ensures s == u
    {
      KeptIsArrived(fs, t, s);
      KeptIsArrived(fs, t, u);
      SameIdSameSpan(fs, s, u);
    }
  }

  /** Assembly delivers what the walk needs: any arrivals with one root and distinct span IDs. */
  lemma AssembledIsWellFormed(spans: seq<Span>, id: string)
    requires id != "" && DistinctIDs(Arrived(spans, id)) && |RootsOf(Arrived(spans, id))| == 1
    ensures id in Assemble(spans) && Assemble(spans)[id].root.Some?
    ensures WellFormed(Assemble(spans)[id].children, Assemble(spans)[id].root.value)
    ensures SpanCount(Assemble(spans)[id]) == |Arrived(spans, id)|
    ensures var t := Assemble(spans)[id];
            forall s :: s in Arrived(spans, id) <==> s in AllSpans(t.children, t.root.value)
  {
    var fs := Arrived(spans, id);
    AssembleClosedForm(spans, id);
    assert fs != [];
    SpanCountExact(spans, id);
    var t := Assemble(spans)[id];
    DescribedIsWellFormed(fs, t);
    forall s ensures s in fs <==> s in AllSpans(t.children, t.root.value) {
      if s in fs { ArrivedIsKept(fs, t, s); }
      if s in AllSpans(t.children, t.root.value) { KeptIsArrived(fs, t, s); }
    }
  }

  lemma ArrivedIsKept(fs: seq<Span>, t: TraceV, s: Span)
    requires ChildrenMatch(t.children, fs) && t.root.Some? && t.root == LastRoot(fs)
    requires |RootsOf(fs)| == 1 && s in fs
    ensures s in AllSpans(t.children, t.root.value)
  {
    if IsRoot(s) {
      FilterMember(fs, s, RootSpan());
    } else {
      FilterMember(fs, s, ChildOf(s.parentID));
      InAll(t.children, t.root.value, s.parentID, s);
    }
  }

  /** For any arrival order of spans with one root and distinct IDs: the waterfall shows at most one row
      per span that arrived, and all of them exactly when every span is connected to the root. */
  lemma WaterfallOfArrivals(spans: seq<Span>, id: string, t: Tree)
    requires id != "" && DistinctIDs(Arrived(spans, id)) && |RootsOf(Arrived(spans, id))| == 1
    requires id in Assemble(spans) && Assemble(spans)[id].root == Some(t.span)
    requires IsTreeOf(t, Assemble(spans)[id].children)
    ensures |Draw(t)| <= |Arrived(spans, id)|
    ensures |Draw(t)| == |Arrived(spans, id)| <==>
            forall s :: s in Arrived(spans, id) ==> Connected(s, Assemble(spans)[id].children, t.span)
  {
    AssembledIsWellFormed(spans, id);
    RowCount(t, Assemble(spans)[id]);
  }
}
