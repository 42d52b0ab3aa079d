// Byte-wise ordering of strings, and the sorted key lists that make map-driven text deterministic.
module SortedStrings {
  import opened Common

  predicate LexLe(a: string, b: string) {
    a == [] || (b != [] && (a[0] < b[0] || (a[0] == b[0] && LexLe(a[1..], b[1..]))))
  }

  lemma {:induction false} LexTotal(a: string, b: string)
    ensures LexLe(a, b) || LexLe(b, a)
    ensures LexLe(a, b) && LexLe(b, a) ==> a == b
  {
    if a != [] && b != [] && a[0] == b[0] {
      LexTotal(a[1..], b[1..]);
      assert a == [a[0]] + a[1..] && b == [b[0]] + b[1..];
    }
  }

  lemma {:induction false} LexTransitive(a: string, b: string, c: string)
    requires LexLe(a, b) && LexLe(b, c)
    ensures LexLe(a, c)
  {
    if a != [] && a[0] == b[0] && b[0] == c[0] {
      LexTransitive(a[1..], b[1..], c[1..]);
    }
  }

  /** The first difference decides, and a string comes before its continuations. */
  lemma {:induction false} LexByFirstDifference(p: string, c: char, x: string, d: char, y: string)
    requires c != d
    ensures LexLe(p + [c] + x, p + [d] + y) <==> c < d
    ensures LexLe(p, p + y) && (y != [] ==> !LexLe(p + y, p))
  {
    if p == [] {
      assert [] + y == y;
    } else {
      LexByFirstDifference(p[1..], c, x, d, y);
      assert (p + [c] + x)[1..] == p[1..] + [c] + x && (p + [d] + y)[1..] == p[1..] + [d] + y;
      assert (p + y)[1..] == p[1..] + y;
    }
  }

  ghost predicate IsLeast(m: string, s: set<string>) {
    m in s && forall x :: x in s ==> LexLe(m, x)
  }

  lemma {:induction false} LeastExists(s: set<string>)
    requires s != {}
    ensures exists m :: IsLeast(m, s)
  {
    var x :| x in s;
    if s - {x} == {} {
      LexTotal(x, x);
      assert s == {x};
      assert IsLeast(x, s);
    } else {
      LeastExists(s - {x});
      var m :| IsLeast(m, s - {x});
      LexTotal(m, x);
      LexTotal(x, x);
      if LexLe(m, x) {
        assert IsLeast(m, s);
      } else {
        forall y | y in s ensures LexLe(x, y) {
          if y != x { LexTransitive(x, m, y); }
        }
        assert IsLeast(x, s);
      }
    }
  }

  /** The elements of s in ascending order; a function of the set alone. */
  ghost function SortedKeys(s: set<string>): (r: seq<string>)
    ensures |r| == |s|
    ensures forall x :: x in r <==> x in s
  {
    if s == {} then [] else [Least(s)] + SortedKeys(s - {Least(s)})
  }

  ghost function Least(s: set<string>): (m: string)
    requires s != {}
    ensures IsLeast(m, s)
  {
    LeastExists(s);
    var m :| IsLeast(m, s);
    m
  }

  lemma {:induction false} SortedKeysNoDup(s: set<string>)
    ensures NoDup(SortedKeys(s))
  {
    if s != {} { SortedKeysNoDup(s - {Least(s)}); }
  }

  ghost predicate Ascending(s: seq<string>) {
    forall i, j :: 0 <= i < j < |s| ==> LexLe(s[i], s[j])
  }

  lemma {:induction false} SortedKeysAscend(s: set<string>)
    ensures Ascending(SortedKeys(s))
  {
    if s != {} {
      var rest := SortedKeys(s - {Least(s)});
      SortedKeysAscend(s - {Least(s)});
      assert forall i :: 0 <= i < |rest| ==> rest[i] in s;
    }
  }

  /** A duplicate-free ascending list is determined by the set of its elements. */
  lemma {:induction false} AscendingIsSortedKeys(r: seq<string>, s: set<string>)
    requires Ascending(r) && NoDup(r)
    requires forall x :: x in r <==> x in s
    ensures r == SortedKeys(s)
  {
    if r == [] {
      assert s == {};
    } else {
      assert r[0] in s;
      LexTotal(r[0], r[0]);
      assert IsLeast(r[0], s);
      LexTotal(Least(s), r[0]);
      TailMembers(r, s);
      AscendingIsSortedKeys(r[1..], s - {r[0]});
    }
  }

  lemma TailMembers(r: seq<string>, s: set<string>)
    requires NoDup(r) && r != []
    requires forall x :: x in r <==> x in s
    ensures forall x :: x in r[1..] <==> x in s - {r[0]}
  {
    assert r == [r[0]] + r[1..];
    assert forall i :: 0 <= i < |r| - 1 ==> r[1..][i] == r[i + 1] && r[0] != r[i + 1];
  }

  function InsertKey(r: seq<string>, x: string): seq<string> {
    if r == [] || LexLe(x, r[0]) then [x] + r else [r[0]] + InsertKey(r[1..], x)
  }

  lemma {:induction false} InsertKeyKeeps(r: seq<string>, x: string)
    requires Ascending(r) && NoDup(r) && x !in r
    ensures var t := InsertKey(r, x);
            Ascending(t) && NoDup(t) && forall y :: y in t <==> y in r || y == x
  {
    if r == [] {
    } else if LexLe(x, r[0]) {
      forall j | 0 <= j < |r| ensures LexLe(x, r[j]) {
        if j > 0 { LexTransitive(x, r[0], r[j]); }
      }
    } else {
      LexTotal(x, r[0]);
      InsertKeyKeeps(r[1..], x);
      var t := InsertKey(r[1..], x);
      assert forall y :: y in t ==> y == x || y in r[1..];
      assert forall y :: y in r[1..] ==> LexLe(r[0], y) && r[0] != y;
      assert forall y :: y in t ==> LexLe(r[0], y) && r[0] != y;
      assert forall y :: y in r <==> y == r[0] || y in r[1..];
    }
  }

  /** Collects the keys of a map in an arbitrary order (Go's range) and sorts them (sort.Strings). */
  method SortedKeysOf(keys: set<string>) returns (sorted: seq<string>)
    ensures sorted == SortedKeys(keys)
  {
    sorted := [];
    var rest := keys;
    while rest != {}
      invariant rest <= keys
      invariant Ascending(sorted) && NoDup(sorted)
      invariant forall x :: x in sorted <==> x in keys - rest
      decreases |rest|
    {
      var k :| k in rest;
      InsertKeyKeeps(sorted, k);
      sorted, rest := InsertKey(sorted, k), rest - {k};
    }
    AscendingIsSortedKeys(sorted, keys);
  }

  /** The part of s before the first c, or all of s. */
  function Until(s: string, c: char): string {
    if s == [] || s[0] == c then [] else [s[0]] + Until(s[1..], c)
  }

  lemma {:induction false} UntilStops(a: string, c: char, b: string)
    requires c !in a
    ensures Until(a + [c] + b, c) == a
  {
    if a == [] {
    } else {
      UntilStops(a[1..], c, b);
      assert (a + [c] + b)[1..] == a[1..] + [c] + b;
    }
  }

  lemma {:induction false} UntilAll(a: string, c: char)
    requires c !in a
    ensures Until(a, c) == a
  {
    if a != [] { UntilAll(a[1..], c); }
  }
}
