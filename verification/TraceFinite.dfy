// Exactly when the walk over a trace ends, and exactly when it lists every span once.
module TraceFinite {
  import opened Common
  import opened TraceModel
  import opened TreeDrawing
  import opened TraceWalk
  import opened TraceVisit

  // ---- a tree is as high as its longest path -----------------------------------------------------------

  function Height(t: Tree): nat { 1 + HighestOf(t.kids) }

  function HighestOf(kids: seq<Tree>): nat {
    if kids == [] then 0 else Max(Height(kids[0]), HighestOf(kids[1..]))
  }

  lemma {:induction false} KidIsLower(kids: seq<Tree>, i: nat)
    requires i < |kids|
    ensures Height(kids[i]) <= HighestOf(kids)
  {
    if i > 0 { KidIsLower(kids[1..], i - 1); }
  }

  /** Each span of the list is a child of the one before. */
  ghost predicate IsChain(seg: seq<Span>, ch: Children) {
    && seg != []
    && forall i :: 0 < i < |seg| ==> seg[i] in Kids(ch, seg[i - 1].spanID)
  }

  ghost predicate Occurs(u: Tree, t: Tree) {
    u == t || exists i :: 0 <= i < |t.kids| && Occurs(u, t.kids[i])
  }

  lemma KidWithSpan(t: Tree, c: Span, ch: Children) returns (i: nat)
    requires IsTreeOf(t, ch) && c in Kids(ch, t.span.spanID)
    ensures i < |t.kids| && t.kids[i].span == c && IsTreeOf(t.kids[i], ch)
  {
    assert c in multiset(Heads(t.kids));
    i :| 0 <= i < |t.kids| && Heads(t.kids)[i] == c;
  }

  /** A chain from the tree's root leads down to a subtree. */
  lemma {:induction false} Descend(t: Tree, seg: seq<Span>, ch: Children) returns (u: Tree)
    requires IsTreeOf(t, ch) && IsChain(seg, ch) && seg[0] == t.span
    ensures IsTreeOf(u, ch) && u.span == seg[|seg| - 1] && Occurs(u, t)
    ensures Height(u) + |seg| - 1 <= Height(t)
    decreases |seg|
  {
    if |seg| == 1 {
      u := t;
    } else {
      assert seg[1] in Kids(ch, seg[0].spanID);
      var i := KidWithSpan(t, seg[1], ch);
      u := Descend(t.kids[i], seg[1..], ch);
      KidIsLower(t.kids, i);
    }
  }

  /** A chain that comes back to its start would go down for ever. */
  lemma {:induction false} NoLoop(t: Tree, seg: seq<Span>, ch: Children)
    requires IsTreeOf(t, ch) && IsChain(seg, ch) && seg[0] == t.span && |seg| > 1
    ensures seg[|seg| - 1] != seg[0]
    decreases Height(t)
  {
    if seg[|seg| - 1] == seg[0] {
      var u := Descend(t, seg, ch);
      NoLoop(u, seg, ch);
    }
  }

  lemma PathIsChain(path: seq<Span>, i: nat, j: nat, ch: Children, root: Span)
    requires IsPath(path, ch, root) && i <= j < |path|
    ensures IsChain(path[i..j + 1], ch)
  {
    var seg := path[i..j + 1];
    forall k | 0 < k < |seg| ensures seg[k] in Kids(ch, seg[k - 1].spanID) {
      assert path[i + k] in Kids(ch, path[i + k - 1].spanID);
    }
  }

  /** Every span of a path is at a node of the tree. */
  lemma DescendPath(t: Tree, path: seq<Span>, i: nat, ch: Children) returns (u: Tree)
    requires IsTreeOf(t, ch) && IsPath(path, ch, t.span) && i < |path|
    ensures IsTreeOf(u, ch) && u.span == path[i] && Occurs(u, t)
  {
    PathIsChain(path, 0, i, ch, t.span);
    hide IsTreeOf, IsChain, Occurs;
    u := Descend(t, path[0..i + 1], ch);
  }

  lemma NoRepeatAt(t: Tree, path: seq<Span>, i: nat, j: nat, ch: Children)
    requires IsTreeOf(t, ch) && IsPath(path, ch, t.span) && i < j < |path|
    ensures path[i] != path[j]
  {
    hide IsTreeOf, IsChain, IsPath;
    var u := DescendPath(t, path, i, ch);
    PathIsChain(path, i, j, ch, t.span);
    NoLoop(u, path[i..j + 1], ch);
  }

  lemma TreeNeverRepeats(t: Tree, ch: Children)
    requires IsTreeOf(t, ch)
    ensures NeverRepeats(ch, t.span)
  {
    forall path | IsPath(path, ch, t.span) ensures NoDup(path) {
      forall i, j | 0 <= i < j < |path| ensures path[i] != path[j] { NoRepeatAt(t, path, i, j, ch); }
    }
  }

  // ---- and without repetition there is a tree ------------------------------------------------------------

  function InsertSpan(r: seq<Span>, s: Span): (t: seq<Span>)
    requires SortedByStart(r)
    ensures SortedByStart(t) && multiset(t) == multiset(r) + multiset{s}
  {
    if r == [] || s.start <= r[0].start then [s] + r
    else
      var rest := InsertSpan(r[1..], s);
      InsertLater(r, s, rest);
      [r[0]] + rest
  }

  lemma InsertLater(r: seq<Span>, s: Span, rest: seq<Span>)
    requires r != [] && SortedByStart(r) && r[0].start <= s.start
    requires SortedByStart(rest) && multiset(rest) == multiset(r[1..]) + multiset{s}
    ensures SortedByStart([r[0]] + rest) && multiset([r[0]] + rest) == multiset(r) + multiset{s}
  {
    forall y | y in rest ensures r[0].start <= y.start {
      assert y in multiset(rest);
      if y != s { assert y in r[1..]; }
    }
    assert r == [r[0]] + r[1..];
  }

  function SortSpans(kids: seq<Span>): (r: seq<Span>)
    ensures SortedByStart(r) && multiset(r) == multiset(kids)
  {
    if kids == [] then []
    else
      assert kids == kids[..|kids| - 1] + [kids[|kids| - 1]];
      InsertSpan(SortSpans(kids[..|kids| - 1]), kids[|kids| - 1])
  }

  lemma PathDown(path: seq<Span>, c: Span, ch: Children, root: Span)
    requires IsPath(path, ch, root) && c in Kids(ch, path[|path| - 1].spanID)
    ensures IsPath(path + [c], ch, root)
  {
  }

  lemma {:induction false} GrowTree(path: seq<Span>, ch: Children, root: Span) returns (t: Tree)
    requires NeverRepeats(ch, root) && IsPath(path, ch, root)
    ensures IsTreeOf(t, ch) && t.span == path[|path| - 1]
    decreases |AllSpans(ch, root)| - |path|, 1, 0
  {
    PathFits(path, ch, root);
    var s := path[|path| - 1];
    var kids := SortSpans(Kids(ch, s.spanID));
    forall c | c in kids ensures c in Kids(ch, s.spanID) { assert c in multiset(kids); }
    var forest := GrowForest(path, kids, ch, root);
    t := Node(s, forest);
    NodeIsTree(s, forest, kids, ch);
  }

  lemma {:induction false} GrowForest(path: seq<Span>, kids: seq<Span>, ch: Children, root: Span)
    returns (forest: seq<Tree>)
    requires NeverRepeats(ch, root) && IsPath(path, ch, root) && |path| <= |AllSpans(ch, root)|
    requires forall c :: c in kids ==> c in Kids(ch, path[|path| - 1].spanID)
    ensures |forest| == |kids| && Walked(forest, kids, ch)
    decreases |AllSpans(ch, root)| - |path|, 0, |kids|
  {
    forest := [];
    if kids != [] {
      var init, c := kids[..|kids| - 1], kids[|kids| - 1];
      assert kids == init + [c];
      forall x | x in init ensures x in Kids(ch, path[|path| - 1].spanID) { assert x in kids; }
      forest := GrowForest(path, init, ch, root);
      assert c in kids;
      PathDown(path, c, ch, root);
      PathFits(path + [c], ch, root);
      var t := GrowTree(path + [c], ch, root);
      forest := forest + [t];
    }
  }

  ghost predicate HasTree(ch: Children, root: Span) {
    exists t: Tree :: t.span == root && IsTreeOf(t, ch)
  }

  /** The walk from the root has a finite tree to follow exactly when no path from the root meets a span twice,
      whatever the spans and their IDs. */
  lemma WalkEndsIff(ch: Children, root: Span)
    ensures HasTree(ch, root) <==> NeverRepeats(ch, root)
  {
    if t: Tree :| t.span == root && IsTreeOf(t, ch) { TreeNeverRepeats(t, ch); }
    if NeverRepeats(ch, root) {
      var t := GrowTree([root], ch, root);
    }
  }

  lemma ReusedIdChildren(root: Span, child: Span)
    requires root.traceID == child.traceID != "" && IsRoot(root) && !IsRoot(child)
    ensures var m := Assemble([root, child]);
            && root.traceID in m && m[root.traceID].root == Some(root)
            && m[root.traceID].children == map[child.parentID := [child]]
  {
    var m0, m1 := Assemble([]), Assemble([root]);
    assert [root, child][..1] == [root] && [root][..0] == [];
    assert m1 == AddV(m0, root) && Assemble([root, child]) == AddV(m1, child);
    assert m1[root.traceID].children == map[] && m1[root.traceID].root == Some(root);
    var none: map<string, seq<Span>> := map[];
    assert Kids(none, child.parentID) + [child] == [child];
  }

  /** A child that reuses its parent's span ID becomes its own child: the trace these two spans assemble to has
      no finite tree. */
  lemma ReusedIdNeverEnds(root: Span, child: Span)
    requires root.traceID == child.traceID != "" && IsRoot(root) && !IsRoot(child)
    requires root.spanID == child.spanID == child.parentID
    ensures var m := Assemble([root, child]);
            && root.traceID in m && m[root.traceID].root == Some(root)
            && !HasTree(m[root.traceID].children, root)
  {
    ReusedIdChildren(root, child);
    var ch := Assemble([root, child])[root.traceID].children;
    var path := [root, child, child];
    assert IsPath(path, ch, root) && path[1] == path[2];
    WalkEndsIff(ch, root);
  }

  // ---- what the walk lists --------------------------------------------------------------------------------

  /** A path from the root ends at x. */
  ghost predicate Reached(x: Span, ch: Children, root: Span) {
    exists path :: IsPath(path, ch, root) && path[|path| - 1] == x
  }

  /** A listed span is at the end of a path through the tree's root. */
  lemma {:induction false} PathTo(t: Tree, path: seq<Span>, x: Span, ch: Children, root: Span) returns (q: seq<Span>)
    requires IsTreeOf(t, ch) && IsPath(path, ch, root) && path[|path| - 1] == t.span && x in Preorder(t)
    ensures IsPath(q, ch, root) && path <= q && q[|q| - 1] == x
    decreases t
  {
    if x == t.span { return path; }
    var k := KidListing(t, x, ch);
    assert path != [];
    hide IsPath, IsTreeOf;
    var c := t.kids[k].span;
    PathDown(path, c, ch, root);
    q := PathTo(t.kids[k], path + [c], x, ch, root);
    Shorter(path, c, q);
  }

  lemma KidListing(t: Tree, x: Span, ch: Children) returns (k: nat)
    requires IsTreeOf(t, ch) && x in Preorder(t) && x != t.span
    ensures k < |t.kids| && x in Preorder(t.kids[k])
    ensures t.kids[k].span in Kids(ch, t.span.spanID) && IsTreeOf(t.kids[k], ch)
  {
    hide IsTreeOf;
    k := ForestFind(t.kids, x);
    KidOf(t, k, ch);
  }

  lemma Shorter(path: seq<Span>, c: Span, q: seq<Span>)
    requires path + [c] <= q
    ensures path <= q
  {
  }

  lemma {:induction false} ChainListed(t: Tree, seg: seq<Span>, ch: Children)
    requires IsTreeOf(t, ch) && IsChain(seg, ch) && seg[0] == t.span
    ensures seg[|seg| - 1] in Preorder(t)
    decreases |seg|
  {
    if |seg| > 1 {
      assert seg[1] in Kids(ch, seg[0].spanID);
      var i := KidWithSpan(t, seg[1], ch);
      ChainListed(t.kids[i], seg[1..], ch);
      InForest(t.kids, i, seg[|seg| - 1]);
    }
  }

  /** The walk lists exactly the spans at the ends of paths from the root. */
  lemma ListsReached(t: Tree, x: Span, ch: Children)
    requires IsTreeOf(t, ch)
    ensures x in Preorder(t) <==> Reached(x, ch, t.span)
  {
    if x in Preorder(t) {
      var q := PathTo(t, [t.span], x, ch, t.span);
    }
    if path :| IsPath(path, ch, t.span) && path[|path| - 1] == x { ChainListed(t, path, ch); }
  }

  // ---- and how often ---------------------------------------------------------------------------------------

  ghost predicate FiledByParent(ch: Children) {
    forall p, s :: p in ch && s in ch[p] ==> s.parentID == p
  }

  /** No span that is reached lists a child twice, and spans reached that share an ID have no children. */
  ghost predicate Tidy(ch: Children, root: Span) {
    && (forall s :: Reached(s, ch, root) ==> NoDup(Kids(ch, s.spanID)))
    && (forall s, u :: Reached(s, ch, root) && Reached(u, ch, root) && s != u && s.spanID == u.spanID ==>
          Kids(ch, s.spanID) == [])
  }

  /** In a tidy trace a span hangs under one span only. */
  lemma OneParent(a: Span, b: Span, x: Span, ch: Children, root: Span)
    requires FiledByParent(ch) && Tidy(ch, root) && Reached(a, ch, root) && Reached(b, ch, root)
    requires x in Kids(ch, a.spanID) && x in Kids(ch, b.spanID)
    ensures a == b
  {
    assert a.spanID == x.parentID == b.spanID;
  }

  lemma PathUp(p: seq<Span>, ch: Children, root: Span)
    requires IsPath(p, ch, root) && |p| > 1
    ensures IsPath(p[..|p| - 1], ch, root) && Reached(p[|p| - 2], ch, root)
    ensures p[|p| - 1] in Kids(ch, p[|p| - 2].spanID)
  {
    var q := p[..|p| - 1];
    assert IsPath(q, ch, root) && q[|q| - 1] == p[|p| - 2];
  }

  lemma {:induction false} PathUnique(p: seq<Span>, q: seq<Span>, ch: Children, root: Span)
    requires NeverRepeats(ch, root) && FiledByParent(ch) && Tidy(ch, root)
    requires IsPath(p, ch, root) && IsPath(q, ch, root) && p[|p| - 1] == q[|q| - 1]
    ensures p == q
    decreases |p|
  {
    if |p| == 1 || |q| == 1 {
      assert NoDup(p) && NoDup(q);
      assert p[0] == q[0] == root;
    } else {
      hide Tidy, FiledByParent, NeverRepeats, IsPath;
      PathUp(p, ch, root);
      PathUp(q, ch, root);
      OneParent(p[|p| - 2], q[|q| - 2], p[|p| - 1], ch, root);
      PathUnique(p[..|p| - 1], q[..|q| - 1], ch, root);
      assert p == p[..|p| - 1] + [p[|p| - 1]] && q == q[..|q| - 1] + [q[|q| - 1]];
    }
  }

  lemma {:induction false} ForestDistinct(kids: seq<Tree>)
    requires forall i :: 0 <= i < |kids| ==> NoDup(Preorder(kids[i]))
    requires forall i, j, x :: 0 <= i < j < |kids| && x in Preorder(kids[i]) ==> x !in Preorder(kids[j])
    ensures NoDup(ForestOrder(kids))
  {
    if kids != [] {
      ForestDistinct(kids[1..]);
      forall x | x in Preorder(kids[0]) ensures x !in ForestOrder(kids[1..]) {
        assert forall j :: 0 <= j < |kids| - 1 ==> kids[1..][j] == kids[j + 1];
        if x in ForestOrder(kids[1..]) {
          var j := ForestFind(kids[1..], x);
        }
      }
      AppendDistinct(Preorder(kids[0]), ForestOrder(kids[1..]));
    }
  }

  lemma ReachedEnd(path: seq<Span>, ch: Children, root: Span)
    requires IsPath(path, ch, root)
    ensures Reached(path[|path| - 1], ch, root)
  {
  }

  lemma TidyHeads(t: Tree, path: seq<Span>, ch: Children, root: Span)
    requires Tidy(ch, root) && IsTreeOf(t, ch) && IsPath(path, ch, root) && path[|path| - 1] == t.span
    ensures NoDup(Heads(t.kids))
  {
    ReachedEnd(path, ch, root);
    DistinctPermutes(Kids(ch, t.span.spanID), Heads(t.kids));
  }

  lemma BranchesApart(t: Tree, path: seq<Span>, i: nat, j: nat, x: Span, ch: Children, root: Span)
    requires NeverRepeats(ch, root) && FiledByParent(ch) && Tidy(ch, root)
    requires IsTreeOf(t, ch) && IsPath(path, ch, root) && path[|path| - 1] == t.span
    requires i < j < |t.kids| && x in Preorder(t.kids[i])
    ensures x !in Preorder(t.kids[j])
  {
    if x in Preorder(t.kids[j]) {
      var a, b := t.kids[i].span, t.kids[j].span;
      KidOf(t, i, ch);
      KidOf(t, j, ch);
      PathDown(path, a, ch, root);
      PathDown(path, b, ch, root);
      var p := PathTo(t.kids[i], path + [a], x, ch, root);
      var q := PathTo(t.kids[j], path + [b], x, ch, root);
      TidyHeads(t, path, ch, root);
      assert Heads(t.kids)[i] == a && Heads(t.kids)[j] == b;
      assert p[|path|] == a && q[|path|] == b;
      PathUnique(p, q, ch, root);
    }
  }

  lemma NotAtEnd(q: seq<Span>, i: nat, ch: Children, root: Span)
    requires NeverRepeats(ch, root) && IsPath(q, ch, root) && i < |q| - 1
    ensures q[i] != q[|q| - 1]
  {
    assert NoDup(q);
  }

  lemma HeadNotBelow(t: Tree, path: seq<Span>, ch: Children, root: Span)
    requires NeverRepeats(ch, root) && IsTreeOf(t, ch) && IsPath(path, ch, root) && path[|path| - 1] == t.span
    ensures t.span !in ForestOrder(t.kids)
  {
    assert path != [];
    hide NeverRepeats, IsTreeOf, IsPath;
    if t.span in ForestOrder(t.kids) {
      var k := ForestFind(t.kids, t.span);
      KidOf(t, k, ch);
      PathDown(path, t.kids[k].span, ch, root);
      var q := PathTo(t.kids[k], path + [t.kids[k].span], t.span, ch, root);
      NotAtEnd(q, |path| - 1, ch, root);
    }
  }

  lemma {:induction false} TidyListsOnce(t: Tree, path: seq<Span>, ch: Children, root: Span)
    requires NeverRepeats(ch, root) && FiledByParent(ch) && Tidy(ch, root)
    requires IsTreeOf(t, ch) && IsPath(path, ch, root) && path[|path| - 1] == t.span
    ensures NoDup(Preorder(t))
    decreases t
  {
    hide Tidy, NeverRepeats, IsPath;
    forall i | 0 <= i < |t.kids| ensures NoDup(Preorder(t.kids[i])) {
      KidOf(t, i, ch);
      PathDown(path, t.kids[i].span, ch, root);
      TidyListsOnce(t.kids[i], path + [t.kids[i].span], ch, root);
    }
    forall i, j, x | 0 <= i < j < |t.kids| && x in Preorder(t.kids[i]) ensures x !in Preorder(t.kids[j]) {
      BranchesApart(t, path, i, j, x, ch, root);
    }
    ForestDistinct(t.kids);
    HeadNotBelow(t, path, ch, root);
    PrependDistinct(t.span, ForestOrder(t.kids));
  }

  // ---- a listing without repetition comes from a tidy trace ----------------------------------------------

  lemma {:induction false} PartOnce(kids: seq<Tree>, i: nat)
    requires NoDup(ForestOrder(kids)) && i < |kids|
    ensures NoDup(Preorder(kids[i]))
  {
    SplitDistinct(Preorder(kids[0]), ForestOrder(kids[1..]));
    if i > 0 { PartOnce(kids[1..], i - 1); }
  }

  lemma SplitDistinct(a: seq<Span>, b: seq<Span>)
    requires NoDup(a + b)
    ensures NoDup(a) && NoDup(b) && forall x :: x in a ==> x !in b
  {
    forall i, j | 0 <= i < j < |a| ensures a[i] != a[j] { assert (a + b)[i] == a[i] && (a + b)[j] == a[j]; }
    forall i, j | 0 <= i < j < |b| ensures b[i] != b[j] {
      assert (a + b)[|a| + i] == b[i] && (a + b)[|a| + j] == b[j];
    }
    forall x | x in a ensures x !in b {
      var i :| 0 <= i < |a| && a[i] == x;
      assert (a + b)[i] == x;
      forall j | 0 <= j < |b| ensures b[j] != x { assert (a + b)[|a| + j] == b[j]; }
    }
  }

  lemma {:induction false} PartsApart(kids: seq<Tree>, i: nat, j: nat, x: Span)
    requires NoDup(ForestOrder(kids)) && i < |kids| && j < |kids|
    requires x in Preorder(kids[i]) && x in Preorder(kids[j])
    ensures i == j
  {
    SplitDistinct(Preorder(kids[0]), ForestOrder(kids[1..]));
    if i > 0 && j > 0 {
      PartsApart(kids[1..], i - 1, j - 1, x);
    } else if i > 0 {
      InForest(kids[1..], i - 1, x);
    } else if j > 0 {
      InForest(kids[1..], j - 1, x);
    }
  }

  lemma {:induction false} SubtreeOnce(u: Tree, t: Tree)
    requires Occurs(u, t) && NoDup(Preorder(t))
    ensures NoDup(Preorder(u))
    decreases t
  {
    if u != t {
      var i :| 0 <= i < |t.kids| && Occurs(u, t.kids[i]);
      SplitDistinct([t.span], ForestOrder(t.kids));
      PartOnce(t.kids, i);
      SubtreeOnce(u, t.kids[i]);
    }
  }

  /** What is listed strictly below a node is listed strictly below the root. */
  lemma {:induction false} BelowOccurs(u: Tree, t: Tree, x: Span)
    requires Occurs(u, t) && x in ForestOrder(u.kids)
    ensures x in ForestOrder(t.kids)
    decreases t
  {
    if u != t {
      var i :| 0 <= i < |t.kids| && Occurs(u, t.kids[i]);
      BelowOccurs(u, t.kids[i], x);
      InForest(t.kids, i, x);
    }
  }

  lemma BelowKid(u: Tree, t: Tree, i: nat, k: nat)
    requires i < |t.kids| && Occurs(u, t.kids[i]) && k < |u.kids|
    ensures u.kids[k].span in ForestOrder(t.kids[i].kids) && u.kids[k].span in Preorder(t.kids[i])
  {
    HeadListed(u.kids, k);
    BelowOccurs(u, t.kids[i], u.kids[k].span);
  }

  /** The root and another node cannot share a child. */
  lemma RootSharesNoChild(t: Tree, b: Tree, k: nat, l: nat)
    requires NoDup(Preorder(t)) && Occurs(b, t) && b != t
    requires k < |t.kids| && l < |b.kids|
    ensures t.kids[k].span != b.kids[l].span
  {
    if t.kids[k].span == b.kids[l].span {
      var i :| 0 <= i < |t.kids| && Occurs(b, t.kids[i]);
      BelowKid(b, t, i, l);
      SplitDistinct([t.span], ForestOrder(t.kids));
      PartsApart(t.kids, i, k, t.kids[k].span);
      PartOnce(t.kids, i);
      SplitDistinct([t.kids[i].span], ForestOrder(t.kids[i].kids));
    }
  }

  lemma {:induction false} NodesShareNoChild(t: Tree, a: Tree, b: Tree, k: nat, l: nat)
    requires NoDup(Preorder(t)) && Occurs(a, t) && Occurs(b, t) && a != b
    requires k < |a.kids| && l < |b.kids|
    ensures a.kids[k].span != b.kids[l].span
    decreases t
  {
    if a == t {
      RootSharesNoChild(t, b, k, l);
    } else if b == t {
      RootSharesNoChild(t, a, l, k);
    } else if a.kids[k].span == b.kids[l].span {
      var i :| 0 <= i < |t.kids| && Occurs(a, t.kids[i]);
      var j :| 0 <= j < |t.kids| && Occurs(b, t.kids[j]);
      BelowKid(a, t, i, k);
      BelowKid(b, t, j, l);
      SplitDistinct([t.span], ForestOrder(t.kids));
      PartsApart(t.kids, i, j, a.kids[k].span);
      PartOnce(t.kids, i);
      NodesShareNoChild(t.kids[i], a, b, k, l);
    }
  }

  lemma HeadsOnce(u: Tree)
    requires NoDup(Preorder(u))
    ensures NoDup(Heads(u.kids))
  {
    SplitDistinct([u.span], ForestOrder(u.kids));
    forall i, j | 0 <= i < j < |u.kids| ensures Heads(u.kids)[i] != Heads(u.kids)[j] {
      if Heads(u.kids)[i] == Heads(u.kids)[j] { PartsApart(u.kids, i, j, u.kids[i].span); }
    }
  }

  lemma ReachedNode(t: Tree, s: Span, ch: Children) returns (u: Tree)
    requires IsTreeOf(t, ch) && Reached(s, ch, t.span)
    ensures Occurs(u, t) && u.span == s && IsTreeOf(u, ch)
  {
    var path :| IsPath(path, ch, t.span) && path[|path| - 1] == s;
    u := DescendPath(t, path, |path| - 1, ch);
  }

  lemma ListedOnceIsTidy(t: Tree, ch: Children)
    requires IsTreeOf(t, ch) && NoDup(Preorder(t))
    ensures Tidy(ch, t.span)
  {
    forall s | Reached(s, ch, t.span) ensures NoDup(Kids(ch, s.spanID)) {
      var u := ReachedNode(t, s, ch);
      SubtreeOnce(u, t);
      HeadsOnce(u);
      DistinctPermutes(Heads(u.kids), Kids(ch, s.spanID));
    }
    forall s, u | Reached(s, ch, t.span) && Reached(u, ch, t.span) && s != u && s.spanID == u.spanID
      ensures Kids(ch, s.spanID) == []
    {
      if Kids(ch, s.spanID) != [] {
        var c := Kids(ch, s.spanID)[0];
        var a := ReachedNode(t, s, ch);
        var b := ReachedNode(t, u, ch);
        var k := KidWithSpan(a, c, ch);
        var l := KidWithSpan(b, c, ch);
        NodesShareNoChild(t, a, b, k, l);
      }
    }
  }

  /** When the walk ends, it lists each span it reaches exactly once if and only if the trace is tidy. */
  lemma ListsOnceIff(t: Tree, ch: Children)
    requires IsTreeOf(t, ch) && FiledByParent(ch)
    ensures (forall i, j :: 0 <= i < j < |Draw(t)| ==> Draw(t)[i].span != Draw(t)[j].span) <==> Tidy(ch, t.span)
  {
    DrawnSpans(t);
    if Tidy(ch, t.span) {
      TreeNeverRepeats(t, ch);
      assert IsPath([t.span], ch, t.span);
      TidyListsOnce(t, [t.span], ch, t.span);
    }
    if forall i, j :: 0 <= i < j < |Draw(t)| ==> Draw(t)[i].span != Draw(t)[j].span {
      forall i, j | 0 <= i < j < |Preorder(t)| ensures Preorder(t)[i] != Preorder(t)[j] {
        assert Draw(t)[i].span != Draw(t)[j].span;
      }
      ListedOnceIsTidy(t, ch);
    }
  }

  /** One root and distinct span IDs: the walk ends and every span is listed once. */
  lemma WellFormedIsTidy(ch: Children, root: Span)
    requires WellFormed(ch, root)
    ensures NeverRepeats(ch, root) && FiledByParent(ch) && Tidy(ch, root)
  {
    WellFormedNeverRepeats(ch, root);
    forall s | Reached(s, ch, root) ensures s in AllSpans(ch, root) {
      var path :| IsPath(path, ch, root) && path[|path| - 1] == s;
      PathSpans(path, ch, root);
    }
  }

  /** Every assembled trace is filed by parent, whatever arrived. */
  lemma AssembledIsFiled(spans: seq<Span>, id: string)
    requires id != "" && id in Assemble(spans)
    ensures FiledByParent(Assemble(spans)[id].children)
  {
    AssembleClosedForm(spans, id);
    var t, fs := Assemble(spans)[id], Arrived(spans, id);
    forall p, s | p in t.children && s in t.children[p] ensures s.parentID == p {
      assert s in Kids(t.children, p);
      FilterMember(fs, s, ChildOf(p));
    }
  }
}
