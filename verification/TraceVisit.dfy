// Which spans the walk lists, how often and in what order.
module TraceVisit {
  import opened Common
  import opened TraceModel
  import opened TreeDrawing
  import opened TraceWalk

  /** Spans in the order the walk emits them. */
  function Preorder(t: Tree): (r: seq<Span>)
    ensures |r| > 0 && r[0] == t.span
  {
    [t.span] + ForestOrder(t.kids)
  }

  function ForestOrder(kids: seq<Tree>): seq<Span> {
    if kids == [] then [] else Preorder(kids[0]) + ForestOrder(kids[1..])
  }

  function SpansOf(lines: seq<Line>): (r: seq<Span>)
    ensures |r| == |lines|
  {
    seq(|lines|, i requires 0 <= i < |lines| => lines[i].span)
  }

  lemma {:induction false} LinesInPreorder(t: Tree, hasNext: seq<bool>)
    ensures SpansOf(Lines(t, hasNext)) == Preorder(t)
    decreases t, 1
  {
    ForestInPreorder(t.kids, hasNext, false);
    assert SpansOf(Lines(t, hasNext)) == [t.span] + SpansOf(ForestLines(t.kids, hasNext, false));
  }

  lemma {:induction false} ForestInPreorder(kids: seq<Tree>, hasNext: seq<bool>, more: bool)
    ensures SpansOf(ForestLines(kids, hasNext, more)) == ForestOrder(kids)
    decreases kids, 0
  {
    if kids != [] {
      var flags := hasNext + [|kids| > 1 || more];
      LinesInPreorder(kids[0], flags);
      ForestInPreorder(kids[1..], hasNext, more);
      assert SpansOf(Lines(kids[0], flags) + ForestLines(kids[1..], hasNext, more))
          == SpansOf(Lines(kids[0], flags)) + SpansOf(ForestLines(kids[1..], hasNext, more));
    }
  }

  /** Row i of the drawing shows span i of the preorder. */
  lemma DrawnSpans(t: Tree)
    ensures |Draw(t)| == |Preorder(t)|
    ensures forall i :: 0 <= i < |Draw(t)| ==> Draw(t)[i].span == Preorder(t)[i]
  {
    LinesInPreorder(t, []);
    assert forall i :: 0 <= i < |Draw(t)| ==> Draw(t)[i].span == SpansOf(Lines(t, []))[i];
  }

  // ---- ancestors -----------------------------------------------------------------------------

  /** Following parent IDs n times from x leads to y. */
  ghost predicate Above(x: Span, n: nat, y: Span, ch: Children, root: Span)
    decreases n
  {
    if n == 0 then x == y
    else
      && x in Kids(ch, x.parentID)
      && exists p :: p in AllSpans(ch, root) && p.spanID == x.parentID && Above(p, n - 1, y, ch, root)
  }

  /** x hangs, through any number of parents, below the root. */
  ghost predicate Connected(x: Span, ch: Children, root: Span) {
    exists n: nat :: Above(x, n, root, ch, root)
  }

  lemma {:induction false} AboveUnique(x: Span, n: nat, y: Span, z: Span, ch: Children, root: Span)
    requires WellFormed(ch, root)
    requires Above(x, n, y, ch, root) && Above(x, n, z, ch, root)
    ensures y == z
    decreases n
  {
    if n > 0 {
      var p :| p in AllSpans(ch, root) && p.spanID == x.parentID && Above(p, n - 1, y, ch, root);
      var q :| q in AllSpans(ch, root) && q.spanID == x.parentID && Above(q, n - 1, z, ch, root);
      AboveUnique(p, n - 1, y, z, ch, root);
    }
  }

  lemma {:induction false} AboveTransitive(x: Span, m: nat, y: Span, n: nat, z: Span, ch: Children, root: Span)
    requires Above(x, m, y, ch, root) && Above(y, n, z, ch, root)
    ensures Above(x, m + n, z, ch, root)
    decreases m
  {
    if m > 0 {
      var p :| p in AllSpans(ch, root) && p.spanID == x.parentID && Above(p, m - 1, y, ch, root);
      AboveTransitive(p, m - 1, y, n, z, ch, root);
    }
  }

  lemma {:induction false} DepthUnique(x: Span, m: nat, n: nat, ch: Children, root: Span)
    requires WellFormed(ch, root)
    requires Above(x, m, root, ch, root) && Above(x, n, root, ch, root)
    ensures m == n
    decreases m
  {
    if m > 0 && n > 0 {
      var p :| p in AllSpans(ch, root) && p.spanID == x.parentID && Above(p, m - 1, root, ch, root);
      var q :| q in AllSpans(ch, root) && q.spanID == x.parentID && Above(q, n - 1, root, ch, root);
      DepthUnique(p, m - 1, n - 1, ch, root);
    }
  }

  lemma ChildAbove(c: Span, p: Span, ch: Children, root: Span)
    requires WellFormed(ch, root) && p in AllSpans(ch, root) && c in Kids(ch, p.spanID)
    ensures c in AllSpans(ch, root) && ChildSpan(c, p, ch, root)
  {
    InAll(ch, root, p.spanID, c);
  }

  ghost predicate ChildSpan(c: Span, p: Span, ch: Children, root: Span) {
    p in AllSpans(ch, root) && p.spanID == c.parentID && c in Kids(ch, c.parentID)
  }

  lemma AboveStep(x: Span, n: nat, c: Span, p: Span, ch: Children, root: Span)
    requires Above(x, n, c, ch, root) && ChildSpan(c, p, ch, root)
    ensures Above(x, n + 1, p, ch, root)
  {
    assert Above(p, 0, p, ch, root);
    var one: nat := 1;
    assert Above(c, one, p, ch, root);
    AboveTransitive(x, n, c, one, p, ch, root);
  }

  lemma KidOf(t: Tree, i: nat, ch: Children)
    requires IsTreeOf(t, ch) && i < |t.kids|
    ensures t.kids[i].span in Kids(ch, t.span.spanID) && IsTreeOf(t.kids[i], ch)
  {
    assert Heads(t.kids)[i] in multiset(Heads(t.kids));
  }

  /** The subtrees of one parent p. */
  ghost predicate KidsOf(kids: seq<Tree>, p: Span, ch: Children) {
    forall i :: 0 <= i < |kids| ==> kids[i].span in Kids(ch, p.spanID) && IsTreeOf(kids[i], ch)
  }

  lemma KidsOfNode(t: Tree, ch: Children)
    requires IsTreeOf(t, ch)
    ensures KidsOf(t.kids, t.span, ch)
  {
    forall i | 0 <= i < |t.kids| ensures t.kids[i].span in Kids(ch, t.span.spanID) { KidOf(t, i, ch); }
  }

  lemma {:induction false} ListedIsBelow(t: Tree, x: Span, ch: Children, root: Span)
    requires WellFormed(ch, root) && IsTreeOf(t, ch) && t.span in AllSpans(ch, root)
    requires x in Preorder(t)
    ensures x in AllSpans(ch, root) && exists n: nat :: Above(x, n, t.span, ch, root)
    decreases t, 1
  {
    if x == t.span {
      assert Above(x, 0, t.span, ch, root);
    } else {
      KidsOfNode(t, ch);
      var k := ForestBelow(t.kids, t.span, x, ch, root);
      var n: nat :| Above(x, n, t.kids[k].span, ch, root);
      ChildAbove(t.kids[k].span, t.span, ch, root);
      AboveStep(x, n, t.kids[k].span, t.span, ch, root);
    }
  }

  lemma {:induction false} ForestBelow(kids: seq<Tree>, p: Span, x: Span, ch: Children, root: Span) returns (k: nat)
    requires WellFormed(ch, root) && KidsOf(kids, p, ch) && p in AllSpans(ch, root)
    requires x in ForestOrder(kids)
    ensures k < |kids| && x in Preorder(kids[k]) && x in AllSpans(ch, root)
    ensures exists n: nat :: Above(x, n, kids[k].span, ch, root)
    decreases kids, 0
  {
    k := ForestFind(kids, x);
    ChildAbove(kids[k].span, p, ch, root);
    ListedIsBelow(kids[k], x, ch, root);
  }

  lemma {:induction false} ForestFind(kids: seq<Tree>, x: Span) returns (k: nat)
    requires x in ForestOrder(kids)
    ensures k < |kids| && x in Preorder(kids[k])
  {
    k := 0;
    if x !in Preorder(kids[0]) {
      var j := ForestFind(kids[1..], x);
      k := j + 1;
    }
  }

  lemma {:induction false} InForest(kids: seq<Tree>, k: nat, q: Span)
    requires k < |kids| && q in Preorder(kids[k])
    ensures q in ForestOrder(kids)
  {
    if k > 0 { InForest(kids[1..], k - 1, q); }
  }

  /** No span is listed twice. */
  lemma {:induction false} ListedOnce(t: Tree, d: nat, ch: Children, root: Span)
    requires WellFormed(ch, root) && IsTreeOf(t, ch)
    requires t.span in AllSpans(ch, root) && Above(t.span, d, root, ch, root)
    ensures NoDup(Preorder(t))
    decreases t, 1
  {
    KidsOfNode(t, ch);
    HeadsDistinct(t, ch, root);
    ForestListedOnce(t.kids, t.span, d, ch, root);
    NotBelowItself(t.kids, t.span, d, ch, root);
    PrependDistinct(t.span, ForestOrder(t.kids));
  }

  lemma PrependDistinct(s: Span, rest: seq<Span>)
    requires NoDup(rest) && s !in rest
    ensures NoDup([s] + rest)
  {
  }

  lemma AppendDistinct(a: seq<Span>, b: seq<Span>)
    requires NoDup(a) && NoDup(b) && forall x :: x in a ==> x !in b
    ensures NoDup(a + b)
  {
    forall i, j | 0 <= i < j < |a + b| ensures (a + b)[i] != (a + b)[j] {
      if i < |a| <= j { assert a[i] in a && b[j - |a|] in b; }
    }
  }

  lemma NotBelowItself(kids: seq<Tree>, p: Span, d: nat, ch: Children, root: Span)
    requires WellFormed(ch, root) && KidsOf(kids, p, ch)
    requires p in AllSpans(ch, root) && Above(p, d, root, ch, root)
    ensures p !in ForestOrder(kids)
  {
    if p in ForestOrder(kids) {
      var k := ForestBelow(kids, p, p, ch, root);
      var n: nat :| Above(p, n, kids[k].span, ch, root);
      ChildAbove(kids[k].span, p, ch, root);
      NoCycle(p, n, kids[k].span, d, ch, root);
    }
  }

  lemma NoCycle(p: Span, n: nat, c: Span, d: nat, ch: Children, root: Span)
    requires WellFormed(ch, root)
    requires Above(p, n, c, ch, root) && ChildSpan(c, p, ch, root)
    ensures !Above(p, d, root, ch, root)
  {
    if Above(p, d, root, ch, root) {
      AboveStep(p, n, c, p, ch, root);
      AboveTransitive(p, n + 1, p, d, root, ch, root);
      DepthUnique(p, n + 1 + d, d, ch, root);
    }
  }

  lemma ChildDepth(c: Span, p: Span, d: nat, ch: Children, root: Span)
    requires ChildSpan(c, p, ch, root) && Above(p, d, root, ch, root)
    ensures Above(c, d + 1, root, ch, root)
  {
  }

  /** Below two spans of the same depth a span has one depth. */
  lemma CommonDepth(x: Span, m: nat, a: Span, n: nat, b: Span, e: nat, ch: Children, root: Span)
    requires WellFormed(ch, root) && Above(a, e, root, ch, root) && Above(b, e, root, ch, root)
    requires Above(x, m, a, ch, root) && Above(x, n, b, ch, root)
    ensures m == n
  {
    hide WellFormed, Above;
    AboveTransitive(x, m, a, e, root, ch, root);
    AboveTransitive(x, n, b, e, root, ch, root);
    DepthUnique(x, m + e, n + e, ch, root);
  }

  /** Two children of p with a common descendant are the same child. */
  lemma OneBranch(x: Span, m: nat, a: Span, n: nat, b: Span, p: Span, d: nat, ch: Children, root: Span)
    requires WellFormed(ch, root) && Above(p, d, root, ch, root)
    requires Above(x, m, a, ch, root) && ChildSpan(a, p, ch, root)
    requires Above(x, n, b, ch, root) && ChildSpan(b, p, ch, root)
    ensures a == b
  {
    ChildDepth(a, p, d, ch, root);
    ChildDepth(b, p, d, ch, root);
    CommonDepth(x, m, a, n, b, d + 1, ch, root);
    AboveUnique(x, m, a, b, ch, root);
  }

  lemma HeadsDistinct(t: Tree, ch: Children, root: Span)
    requires WellFormed(ch, root) && IsTreeOf(t, ch)
    ensures NoDup(Heads(t.kids))
  {
    var a, b := Heads(t.kids), Kids(ch, t.span.spanID);
    assert NoDup(b);
    DistinctPermutes(b, a);
  }

  lemma KidsTail(kids: seq<Tree>, p: Span, ch: Children)
    requires kids != [] && KidsOf(kids, p, ch)
    ensures KidsOf(kids[1..], p, ch)
  {
  }

  /** The first child hangs one step deeper than p. */
  lemma FirstChild(kids: seq<Tree>, p: Span, d: nat, ch: Children, root: Span)
    requires WellFormed(ch, root) && kids != [] && KidsOf(kids, p, ch)
    requires p in AllSpans(ch, root) && Above(p, d, root, ch, root)
    ensures kids[0].span in AllSpans(ch, root) && Above(kids[0].span, d + 1, root, ch, root) && IsTreeOf(kids[0], ch)
  {
    ChildAbove(kids[0].span, p, ch, root);
    ChildDepth(kids[0].span, p, d, ch, root);
  }

  lemma {:induction false} ForestListedOnce(kids: seq<Tree>, p: Span, d: nat, ch: Children, root: Span)
    requires WellFormed(ch, root) && KidsOf(kids, p, ch) && NoDup(Heads(kids))
    requires p in AllSpans(ch, root) && Above(p, d, root, ch, root)
    ensures NoDup(ForestOrder(kids))
    decreases kids, 0
  {
    hide WellFormed, KidsOf, Above, AllSpans;
    if kids != [] {
      HeadsTailDistinct(kids);
      KidsTail(kids, p, ch);
      ForestListedOnce(kids[1..], p, d, ch, root);
      FirstChild(kids, p, d, ch, root);
      ListedOnce(kids[0], d + 1, ch, root);
      JoinDistinct(kids, p, d, ch, root);
    }
  }

  lemma HeadsTailDistinct(kids: seq<Tree>)
    requires kids != [] && NoDup(Heads(kids))
    ensures NoDup(Heads(kids[1..]))
  {
    assert Heads(kids)[1..] == Heads(kids[1..]);
  }

  lemma JoinDistinct(kids: seq<Tree>, p: Span, d: nat, ch: Children, root: Span)
    requires WellFormed(ch, root) && kids != [] && KidsOf(kids, p, ch) && NoDup(Heads(kids))
    requires p in AllSpans(ch, root) && Above(p, d, root, ch, root)
    requires NoDup(Preorder(kids[0])) && NoDup(ForestOrder(kids[1..]))
    ensures NoDup(ForestOrder(kids))
  {
    forall x | x in Preorder(kids[0]) ensures x !in ForestOrder(kids[1..]) {
      SubtreesDisjoint(kids, p, d, x, ch, root);
    }
    AppendDistinct(Preorder(kids[0]), ForestOrder(kids[1..]));
  }

  lemma SubtreesDisjoint(kids: seq<Tree>, p: Span, d: nat, x: Span, ch: Children, root: Span)
    requires WellFormed(ch, root) && kids != [] && KidsOf(kids, p, ch) && NoDup(Heads(kids))
    requires p in AllSpans(ch, root) && Above(p, d, root, ch, root)
    requires x in Preorder(kids[0])
    ensures x !in ForestOrder(kids[1..])
  {
    hide WellFormed, Above, AllSpans;
    if x in ForestOrder(kids[1..]) {
      KidsTail(kids, p, ch);
      var j := ForestBelow(kids[1..], p, x, ch, root);
      var a, b := kids[0].span, kids[1..][j].span;
      assert Heads(kids)[0] == a && Heads(kids)[j + 1] == b;
      ListedUnderChild(kids, p, x, ch, root);
      SharedDescendant(x, a, b, p, d, ch, root);
    }
  }

  lemma ListedUnderChild(kids: seq<Tree>, p: Span, x: Span, ch: Children, root: Span)
    requires WellFormed(ch, root) && kids != [] && KidsOf(kids, p, ch) && p in AllSpans(ch, root)
    requires x in Preorder(kids[0])
    ensures exists n: nat :: Above(x, n, kids[0].span, ch, root)
  {
    ChildAbove(kids[0].span, p, ch, root);
    ListedIsBelow(kids[0], x, ch, root);
  }

  lemma SharedDescendant(x: Span, a: Span, b: Span, p: Span, d: nat, ch: Children, root: Span)
    requires WellFormed(ch, root) && p in AllSpans(ch, root) && Above(p, d, root, ch, root)
    requires a in Kids(ch, p.spanID) && b in Kids(ch, p.spanID)
    requires exists m: nat :: Above(x, m, a, ch, root)
    requires exists n: nat :: Above(x, n, b, ch, root)
    ensures a == b
  {
    ChildAbove(a, p, ch, root);
    ChildAbove(b, p, ch, root);
    var m: nat :| Above(x, m, a, ch, root);
    var n: nat :| Above(x, n, b, ch, root);
    OneBranch(x, m, a, n, b, p, d, ch, root);
  }

  /** The walk lists the children of everything it lists. */
  lemma {:induction false} ListedClosed(t: Tree, x: Span, c: Span, ch: Children)
    requires IsTreeOf(t, ch) && x in Preorder(t) && c in Kids(ch, x.spanID)
    ensures c in Preorder(t)
    decreases t, 1
  {
    if x == t.span {
      assert c in multiset(Heads(t.kids));
      var i :| 0 <= i < |t.kids| && Heads(t.kids)[i] == c;
      HeadListed(t.kids, i);
    } else {
      KidsOfNode(t, ch);
      ForestClosed(t.kids, t.span, x, c, ch);
    }
  }

  lemma {:induction false} ForestClosed(kids: seq<Tree>, p: Span, x: Span, c: Span, ch: Children)
    requires KidsOf(kids, p, ch) && x in ForestOrder(kids) && c in Kids(ch, x.spanID)
    ensures c in ForestOrder(kids)
    decreases kids, 0
  {
    if x in Preorder(kids[0]) {
      ListedClosed(kids[0], x, c, ch);
    } else {
      ForestClosed(kids[1..], p, x, c, ch);
    }
  }

  lemma {:induction false} HeadListed(kids: seq<Tree>, i: nat)
    requires i < |kids|
    ensures kids[i].span in ForestOrder(kids)
  {
    if i == 0 {
      assert Preorder(kids[0])[0] == kids[0].span;
    } else {
      HeadListed(kids[1..], i - 1);
    }
  }

  lemma {:induction false} ConnectedIsListed(t: Tree, x: Span, n: nat, ch: Children)
    requires IsTreeOf(t, ch) && Above(x, n, t.span, ch, t.span)
    ensures x in Preorder(t)
    decreases n
  {
    if n > 0 {
      var p :| p in AllSpans(ch, t.span) && p.spanID == x.parentID && Above(p, n - 1, t.span, ch, t.span);
      ConnectedIsListed(t, p, n - 1, ch);
      ListedClosed(t, p, x, ch);
    }
  }

  /** The walk from the root lists every span connected to the root, once each, the root first. */
  lemma WalkVisitsConnected(t: Tree, ch: Children)
    requires WellFormed(ch, t.span) && IsTreeOf(t, ch)
    ensures Draw(t)[0].span == t.span
    ensures forall i, j :: 0 <= i < j < |Draw(t)| ==> Draw(t)[i].span != Draw(t)[j].span
    ensures forall s :: Connected(s, ch, t.span) <==> exists i :: 0 <= i < |Draw(t)| && Draw(t)[i].span == s
  {
    DrawnSpans(t);
    ListedOnce(t, 0, ch, t.span);
    forall s ensures Connected(s, ch, t.span) <==> s in Preorder(t) {
      if s in Preorder(t) {
        ListedIsBelow(t, s, ch, t.span);
      }
      if Connected(s, ch, t.span) {
        var n: nat :| Above(s, n, t.span, ch, t.span);
        ConnectedIsListed(t, s, n, ch);
      }
    }
    forall s ensures s in Preorder(t) <==> exists i :: 0 <= i < |Draw(t)| && Draw(t)[i].span == s {
      if i :| 0 <= i < |Draw(t)| && Draw(t)[i].span == s { assert Preorder(t)[i] == s; }
      if s in Preorder(t) {
        var i :| 0 <= i < |Preorder(t)| && Preorder(t)[i] == s;
        assert Draw(t)[i].span == s;
      }
    }
  }
}
