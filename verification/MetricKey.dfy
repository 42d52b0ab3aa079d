// The per-service series key (internal/store/store.go, metricKey).
module MetricKeys {
  import opened SortedStrings
  import opened SeriesModel

  ghost function FoldLabels(keys: seq<string>, labels: Labels): string
    requires forall k :: k in keys ==> k in labels
  {
    if keys == [] then ""
    else FoldLabels(keys[..|keys| - 1], labels) + Cell(keys[|keys| - 1], labels[keys[|keys| - 1]])
  }

  function Cell(k: string, v: string): string { "{" + k + "=" + v + "}" }

  /** The key as a function of the name and the label map alone: iteration order cannot show. */
  ghost function KeyOf(name: string, labels: Labels): string {
    name + FoldLabels(SortedKeys(labels.Keys), labels)
  }

  method MetricKey(name: string, labels: Labels) returns (key: string)
    ensures key == KeyOf(name, labels)
  {
    if |labels| == 0 {
      assert labels.Keys == {};
      assert KeyOf(name, labels) == name + [];
      return name;
    }
    var keys := SortedKeysOf(labels.Keys);
    var cells := AppendCells(keys, labels);
    key := name + cells;
  }

  method AppendCells(keys: seq<string>, labels: Labels) returns (out: string)
    requires forall k :: k in keys ==> k in labels
    ensures out == FoldLabels(keys, labels)
  {
    out := "";
    for i := 0 to |keys|
      invariant out == FoldLabels(keys[..i], labels)
    {
      FoldNext(keys, i, labels);
      out := out + Cell(keys[i], labels[keys[i]]);
    }
    assert keys[..|keys|] == keys;
  }

  lemma FoldNext(keys: seq<string>, i: nat, labels: Labels)
    requires i < |keys| && forall k :: k in keys ==> k in labels
    ensures FoldLabels(keys[..i + 1], labels) == FoldLabels(keys[..i], labels) + Cell(keys[i], labels[keys[i]])
  {
    assert keys[..i + 1][..i] == keys[..i];
  }

  ghost predicate Clean(name: string, labels: Labels) {
    && '{' !in name
    && forall k :: k in labels ==> '=' !in k && '}' !in labels[k]
  }

  lemma {:induction false} FoldFromFront(keys: seq<string>, labels: Labels)
    requires keys != [] && forall k :: k in keys ==> k in labels
    ensures FoldLabels(keys, labels) == Cell(keys[0], labels[keys[0]]) + FoldLabels(keys[1..], labels)
  {
    var n := |keys| - 1;
    if n > 0 {
      FoldFromFront(keys[..n], labels);
      assert keys[..n][1..] == keys[1..][..n - 1];
    } else {
      assert keys[..n] == [] && keys[1..] == [];
    }
  }

  /** Reading a cell back: with no '=' in labels and no '}' in values, a cell is self-delimiting. */
  lemma CellDelimits(k1: string, v1: string, rest1: string, k2: string, v2: string, rest2: string)
    requires '=' !in k1 && '=' !in k2 && '}' !in v1 && '}' !in v2
    requires Cell(k1, v1) + rest1 == Cell(k2, v2) + rest2
    ensures k1 == k2 && v1 == v2 && rest1 == rest2
  {
    var s1, s2 := Cell(k1, v1) + rest1, Cell(k2, v2) + rest2;
    assert s1[1..] == k1 + "=" + (v1 + "}" + rest1);
    assert s2[1..] == k2 + "=" + (v2 + "}" + rest2);
    UntilStops(k1, '=', v1 + "}" + rest1);
    UntilStops(k2, '=', v2 + "}" + rest2);
    assert s1[2 + |k1|..] == v1 + "}" + rest1;
    assert s2[2 + |k1|..] == v2 + "}" + rest2;
    UntilStops(v1, '}', rest1);
    UntilStops(v2, '}', rest2);
    assert s1[3 + |k1| + |v1|..] == rest1;
    assert s2[3 + |k1| + |v1|..] == rest2;
  }

  lemma {:induction false} FoldInjective(a: seq<string>, l: Labels, b: seq<string>, m: Labels)
    requires forall k :: k in a ==> k in l && '=' !in k && '}' !in l[k]
    requires forall k :: k in b ==> k in m && '=' !in k && '}' !in m[k]
    requires FoldLabels(a, l) == FoldLabels(b, m)
    ensures a == b && forall k :: k in a ==> l[k] == m[k]
  {
    if a != [] { FoldFromFront(a, l); }
    if b != [] { FoldFromFront(b, m); }
    if a != [] && b != [] {
      CellDelimits(a[0], l[a[0]], FoldLabels(a[1..], l), b[0], m[b[0]], FoldLabels(b[1..], m));
      FoldInjective(a[1..], l, b[1..], m);
      assert a == [a[0]] + a[1..] && b == [b[0]] + b[1..];
    }
  }

  /** Distinct series get distinct keys, for clean names and labels. */
  lemma KeyInjective(n1: string, l1: Labels, n2: string, l2: Labels)
    requires Clean(n1, l1) && Clean(n2, l2)
    requires KeyOf(n1, l1) == KeyOf(n2, l2)
    ensures n1 == n2 && l1 == l2
  {
    var a, b := SortedKeys(l1.Keys), SortedKeys(l2.Keys);
    NameDelimits(n1, l1);
    NameDelimits(n2, l2);
    assert KeyOf(n1, l1)[|n1|..] == FoldLabels(a, l1);
    assert KeyOf(n2, l2)[|n1|..] == FoldLabels(b, l2);
    FoldInjective(a, l1, b, l2);
    assert forall k :: k in l1 <==> k in l2 by {
      assert forall k :: k in a <==> k in l1.Keys;
      assert forall k :: k in b <==> k in l2.Keys;
    }
  }

  lemma NameDelimits(n: string, l: Labels)
    requires Clean(n, l)
    ensures Until(KeyOf(n, l), '{') == n
  {
    var keys := SortedKeys(l.Keys);
    if keys == [] {
      assert KeyOf(n, l) == n;
      UntilAll(n, '{');
    } else {
      FoldFromFront(keys, l);
      var rest := keys[0] + "=" + l[keys[0]] + "}" + FoldLabels(keys[1..], l);
      assert KeyOf(n, l) == n + ['{'] + rest;
      UntilStops(n, '{', rest);
    }
  }

  // ---- exactly when a key is shared ----------------------------------------------------------------

  lemma KeyOfOne(n: string, k: string, v: string)
    ensures KeyOf(n, map[k := v]) == n + Cell(k, v)
  {
    var l: Labels := map[k := v];
    AscendingIsSortedKeys([k], l.Keys);
    assert [k][..0] == [];
    assert FoldLabels([k], l) == Cell(k, v);
  }

  lemma KeyOfNone(n: string)
    ensures KeyOf(n, map[]) == n
  {
    var l: Labels := map[];
    assert SortedKeys(l.Keys) == [];
  }

  /** Any other series has the same key. */
  ghost predicate KeyShared(n: string, l: Labels) {
    exists m: string, r: Labels :: (m, r) != (n, l) && KeyOf(m, r) == KeyOf(n, l)
  }

  ghost predicate EndsInCell(n: string) {
    exists a: string, k: string, v: string :: n == a + Cell(k, v)
  }

  /** A key with labels ends in the cell of the last one. */
  lemma LabelledKeyEndsInCell(n: string, l: Labels)
    requires l != map[]
    ensures EndsInCell(KeyOf(n, l))
  {
    var keys := SortedKeys(l.Keys);
    var k := keys[|keys| - 1];
    assert KeyOf(n, l) == n + FoldLabels(keys[..|keys| - 1], l) + Cell(k, l[k]);
  }

  /** Exactly when two series share a key: every labelled series shares its own with the bare series of that
      name, and a bare series shares its name when the name ends like a label. */
  lemma KeySharedIff(n: string, l: Labels)
    ensures KeyShared(n, l) <==> l != map[] || EndsInCell(n)
  {
    KeyOfNone(n);
    if l != map[] {
      KeyOfNone(KeyOf(n, l));
      assert KeyOf(KeyOf(n, l), map[]) == KeyOf(n, l);
    } else if EndsInCell(n) {
      var a, k, v :| n == a + Cell(k, v);
      KeyOfOne(a, k, v);
      var r: Labels := map[k := v];
      assert k in r;
      assert (a, r) != (n, l) && KeyOf(a, r) == KeyOf(n, l);
    } else if KeyShared(n, l) {
      var m: string, r: Labels :| (m, r) != (n, l) && KeyOf(m, r) == KeyOf(n, l);
      if r == map[] { KeyOfNone(m); } else { LabelledKeyEndsInCell(m, r); }
    }
  }

  /** An '=' in a label key moves the border between key and value. */
  lemma EqualsInKeyCollides(n: string, k: string, k': string, v: string)
    ensures var l: Labels, m: Labels := map[k + "=" + k' := v], map[k := k' + "=" + v];
            l != m && KeyOf(n, l) == KeyOf(n, m)
  {
    KeyOfOne(n, k + "=" + k', v);
    KeyOfOne(n, k, k' + "=" + v);
    assert Cell(k + "=" + k', v) == Cell(k, k' + "=" + v);
    var l: Labels, m: Labels := map[k + "=" + k' := v], map[k := k' + "=" + v];
    assert |k + "=" + k'| > |k|;
    assert k in m && k !in l;
  }

  lemma KeyOfTwo(n: string, k: string, v: string, k': string, v': string)
    requires k != k' && LexLe(k, k')
    ensures KeyOf(n, map[k := v, k' := v']) == n + Cell(k, v) + Cell(k', v')
  {
    var l: Labels := map[k := v, k' := v'];
    var keys := [k, k'];
    AscendingIsSortedKeys(keys, l.Keys);
    assert keys[..1] == [k] && [k][..0] == [];
    assert FoldLabels([k], l) == Cell(k, v);
    assert FoldLabels(keys, l) == Cell(k, v) + Cell(k', v');
  }

  lemma CellSplits(k: string, v: string, k': string, v': string)
    ensures Cell(k, v + "}{" + k' + "=" + v') == Cell(k, v) + Cell(k', v')
  {
  }

  /** A '}' in a label value can end the cell early and begin the next one. */
  lemma BraceInValueCollides(n: string, k: string, v: string, k': string, v': string)
    requires k != k' && LexLe(k, k')
    ensures var l: Labels, m: Labels := map[k := v + "}{" + k' + "=" + v'], map[k := v, k' := v'];
            l != m && KeyOf(n, l) == KeyOf(n, m)
  {
    KeyOfOne(n, k, v + "}{" + k' + "=" + v');
    KeyOfTwo(n, k, v, k', v');
    CellSplits(k, v, k', v');
    assert n + Cell(k, v) + Cell(k', v') == n + (Cell(k, v) + Cell(k', v'));
    var l: Labels, m: Labels := map[k := v + "}{" + k' + "=" + v'], map[k := v, k' := v'];
    assert k' in m && k' !in l;
  }
}
