// Parsing what the log panel prints: exactly which attribute maps come back.
module LogfmtRoundTrip {
  import opened Common
  import opened SortedStrings
  import opened Logfmt

  type Attrs = map<string, string>

  // ---- the printer -----------------------------------------------------------------------------------

  function Cell(p: Pair): string { p.key + "=" + p.value }

  /** Pairs separated by single spaces. */
  function Line(ps: seq<Pair>): string {
    if ps == [] then ""
    else if |ps| == 1 then Cell(ps[0])
    else Cell(ps[0]) + " " + Line(ps[1..])
  }

  function PairsOf(keys: seq<string>, m: Attrs): (r: seq<Pair>)
    requires forall k :: k in keys ==> k in m
    ensures |r| == |keys|
  {
    seq(|keys|, i requires 0 <= i < |keys| => Pair(keys[i], m[keys[i]]))
  }

  ghost function SortedPairs(m: Attrs): (r: seq<Pair>)
    ensures |r| == |m|
  {
    PairsOf(SortedKeys(m.Keys), m)
  }

  /** What formatAttrs prints. */
  ghost function Format(m: Attrs): string { Line(SortedPairs(m)) }

  lemma {:induction false} LineAppend(ps: seq<Pair>, p: Pair)
    ensures Line(ps + [p]) == if ps == [] then Cell(p) else Line(ps) + " " + Cell(p)
  {
    if ps == [] {
      assert [] + [p] == [p];
    } else if |ps| == 1 {
      assert (ps + [p])[1..] == [p];
    } else {
      assert (ps + [p])[1..] == ps[1..] + [p];
      LineAppend(ps[1..], p);
      assert Cell(ps[0]) + " " + (Line(ps[1..]) + " " + Cell(p)) == Cell(ps[0]) + " " + Line(ps[1..]) + " " + Cell(p);
    }
  }

  method FormatAttrs(m: Attrs) returns (b: string)
    ensures b == Format(m)
  {
    if |m| == 0 { return ""; }
    var keys := SortedKeysOf(m.Keys);
    b := PrintKeys(keys, m);
  }

  method PrintKeys(keys: seq<string>, m: Attrs) returns (b: string)
    requires forall k :: k in keys ==> k in m
    ensures b == Line(PairsOf(keys, m))
  {
    b := "";
    for i := 0 to |keys|
      invariant b == Line(PairsOf(keys, m)[..i])
    {
      ghost var ps := PairsOf(keys, m);
      assert ps[..i + 1] == ps[..i] + [ps[i]];
      LineAppend(ps[..i], ps[i]);
      ghost var before := b;
      if i > 0 {
        b := b + " ";
      }
      b := b + keys[i];
      b := b + "=";
      b := b + m[keys[i]];
      assert b == (if i > 0 then before + " " else before) + (keys[i] + "=" + m[keys[i]]);
    }
    assert PairsOf(keys, m)[..|keys|] == PairsOf(keys, m);
  }

  // ---- clean pairs come back -----------------------------------------------------------------------------

  predicate CleanKey(k: string) { '=' !in k && ' ' !in k }

  predicate CleanValue(v: string) { ' ' !in v && (v != [] ==> v[0] != '"') }

  predicate CleanPair(p: Pair) { CleanKey(p.key) && CleanValue(p.value) }

  lemma {:induction false} KeyStops(k: string, rest: string)
    requires CleanKey(k)
    ensures Key(k + ['='] + rest) == k
  {
    if k == [] {
    } else {
      assert (k + ['='] + rest)[1..] == k[1..] + ['='] + rest;
      KeyStops(k[1..], rest);
    }
  }

  lemma {:induction false} BareStops(v: string, rest: string)
    requires ' ' !in v && (rest != [] ==> rest[0] == ' ')
    ensures Bare(v + rest) == v
  {
    if v == [] {
      assert v + rest == rest;
    } else {
      assert (v + rest)[1..] == v[1..] + rest;
      BareStops(v[1..], rest);
    }
  }

  /** One pair at the front of a line, whatever way its value is written. */
  lemma ParseFirst(k: string, text: string, v: string, rest: string)
    requires CleanKey(k) && Value(text) == (v, rest)
    ensures Parse(k + ['='] + text) == if Parse(rest).None? then None else Some([Pair(k, v)] + Parse(rest).value)
  {
    var s := k + ['='] + text;
    KeyStops(k, text);
    assert SkipSpaces(s) == s;
    assert s[|k|] == '=' && s[|k| + 1..] == text;
  }

  lemma SkipOne(s: string)
    ensures Parse([' '] + s) == Parse(s)
  {
    assert ([' '] + s)[1..] == s;
  }

  lemma BareValue(v: string, rest: string)
    requires CleanValue(v) && (rest != [] ==> rest[0] == ' ')
    ensures Value(v + rest) == (v, rest)
  {
    BareStops(v, rest);
    assert (v + rest)[|v|..] == rest;
  }

  lemma ParseCell(p: Pair, rest: string)
    requires CleanPair(p) && (rest != [] ==> rest[0] == ' ')
    ensures Parse(Cell(p) + rest) == if Parse(rest).None? then None else Some([p] + Parse(rest).value)
  {
    hide Parse, Value;
    BareValue(p.value, rest);
    ParseFirst(p.key, p.value + rest, p.value, rest);
    assert Cell(p) + rest == p.key + ['='] + (p.value + rest);
  }

  lemma ParseMore(p: Pair, rest: string)
    requires CleanPair(p)
    ensures Parse(Cell(p) + " " + rest) == if Parse(rest).None? then None else Some([p] + Parse(rest).value)
  {
    SkipOne(rest);
    ParseCell(p, [' '] + rest);
    assert Cell(p) + " " + rest == Cell(p) + ([' '] + rest);
  }

  lemma ParseLast(p: Pair)
    requires CleanPair(p)
    ensures Parse(Cell(p)) == Some([p])
  {
    ParseCell(p, []);
    assert Cell(p) + [] == Cell(p) && [p] + [] == [p];
  }

  lemma {:induction false} CleanLineParses(ps: seq<Pair>)
    requires forall i :: 0 <= i < |ps| ==> CleanPair(ps[i])
    ensures Parse(Line(ps)) == Some(ps)
  {
    if |ps| == 1 {
      ParseLast(ps[0]);
      assert [ps[0]] == ps;
    } else if |ps| > 1 {
      CleanLineParses(ps[1..]);
      ParseMore(ps[0], Line(ps[1..]));
      assert [ps[0]] + ps[1..] == ps;
    }
  }

  lemma {:induction false} CollectPairs(keys: seq<string>, m: Attrs)
    requires forall k :: k in keys ==> k in m
    ensures forall k :: k in Collect(PairsOf(keys, m)) <==> k in keys
    ensures forall k :: k in keys ==> k in Collect(PairsOf(keys, m)) && Collect(PairsOf(keys, m))[k] == m[k]
  {
    if keys != [] {
      var init, last := keys[..|keys| - 1], keys[|keys| - 1];
      CollectPairs(init, m);
      assert PairsOf(keys, m)[..|init|] == PairsOf(init, m);
      assert forall k :: k in keys <==> k in init || k == last;
    }
  }

  lemma CollectSorted(m: Attrs)
    ensures Collect(SortedPairs(m)) == m
  {
    CollectPairs(SortedKeys(m.Keys), m);
  }

  ghost predicate CleanAttrs(m: Attrs) {
    forall k :: k in m ==> CleanKey(k) && CleanValue(m[k])
  }

  /** Attributes with clean keys and values are recovered from their printed form. */
  lemma CleanRoundTrip(m: Attrs)
    requires CleanAttrs(m)
    ensures ParseMap(Format(m)) == Some(m)
  {
    var ps := SortedPairs(m);
    forall i | 0 <= i < |ps| ensures CleanPair(ps[i]) { assert SortedKeys(m.Keys)[i] in m.Keys; }
    CleanLineParses(ps);
    CollectSorted(m);
  }

  // ---- and nothing else does: a line has no room to spare --------------------------------------------------

  function PairSize(k: string, v: string): nat { |k| + 1 + |v| }

  function Size(ps: seq<Pair>): nat {
    if ps == [] then 0 else PairSize(ps[0].key, ps[0].value) + Size(ps[1..])
  }

  lemma {:induction false} KeyIsClean(s: string)
    ensures CleanKey(Key(s))
  {
    if s != [] { KeyIsClean(s[1..]); }
  }

  lemma {:induction false} BareHasNoSpace(s: string)
    ensures ' ' !in Bare(s)
  {
    if s != [] { BareHasNoSpace(s[1..]); }
  }

  /** A bare value is followed by a space or by the end; a quoted one costs a quote more than its text. */
  lemma ValueCost(s: string)
    ensures var v := Value(s);
            if s != [] && s[0] == '"'
            then |v.0| + |v.1| < |s| && (v.1 != [] ==> |v.0| + |v.1| + 1 < |s|)
            else |v.0| + |v.1| == |s| && CleanValue(v.0) && (v.1 != [] ==> v.1[0] == ' ')
  {
    BareHasNoSpace(s);
    if s != [] && s[0] == '"' { assert |s[1..]| == |s| - 1; }
  }

  /** The parsed pairs, with one separator between each two, never need more room than the line has; if they
      need all of it then every pair was written bare. */
  lemma {:induction false} ParsedFits(s: string)
    ensures Parse(s).Some? && Parse(s).value != [] ==> Fits(Parse(s).value, |s|)
    decreases |s|, 1
  {
    var t := SkipSpaces(s);
    if t != [] && Parse(s).Some? {
      var k := Key(t);
      var u := t[|k| + 1..];
      var v := Value(u);
      KeyIsClean(t);
      ValueCost(u);
      TailFits(v.1);
      FirstFits(Pair(k, v.0), Parse(v.1).value, u != [] && u[0] == '"', |v.1|, |t|);
    }
  }

  /** After a bare value the separating space is not available to the pairs that follow. */
  lemma TailFits(rest: string)
    ensures Parse(rest).Some? && Parse(rest).value != [] ==>
              && rest != [] && Fits(Parse(rest).value, |rest|)
              && (rest[0] == ' ' ==> Fits(Parse(rest).value, |rest| - 1))
    decreases |rest|, 2
  {
    ParsedFits(rest);
    if rest != [] && rest[0] == ' ' {
      assert rest == [' '] + rest[1..];
      SkipOne(rest[1..]);
      ParsedFits(rest[1..]);
    }
  }

  ghost predicate Fits(ps: seq<Pair>, room: nat) {
    && Size(ps) + |ps| - 1 <= room
    && (Size(ps) + |ps| - 1 == room ==> forall i :: 0 <= i < |ps| ==> CleanPair(ps[i]))
  }

  /** A first pair before a tail that fits in what its value left over. */
  lemma FirstFits(p: Pair, tail: seq<Pair>, quoted: bool, left: nat, room: nat)
    requires quoted ==> PairSize(p.key, p.value) + left < room
    requires quoted && tail != [] ==> PairSize(p.key, p.value) + left + 1 < room && Fits(tail, left)
    requires !quoted ==> PairSize(p.key, p.value) + left == room && CleanPair(p)
    requires !quoted && tail != [] ==> 0 < left && Fits(tail, left - 1)
    ensures Fits([p] + tail, room)
  {
    assert ([p] + tail)[1..] == tail;
  }

  ghost function MapSize(m: Attrs): nat {
    if m.Keys == {} then 0 else var k :| k in m; PairSize(k, m[k]) + MapSize(m - {k})
  }

  lemma {:induction false} MapSizeRemove(m: Attrs, k: string)
    requires k in m
    ensures MapSize(m) == PairSize(k, m[k]) + MapSize(m - {k})
    decreases |m|
  {
    var j :| j in m && MapSize(m) == PairSize(j, m[j]) + MapSize(m - {j});
    if j != k {
      assert (m - {j}).Keys == m.Keys - {j} && (m - {k}).Keys == m.Keys - {k};
      MapSizeRemove(m - {j}, k);
      MapSizeRemove(m - {k}, j);
      assert m - {j} - {k} == m - {k} - {j};
    }
  }

  lemma MapSizePut(m: Attrs, k: string, v: string)
    ensures MapSize(m[k := v]) <= MapSize(m) + PairSize(k, v)
    ensures k !in m ==> MapSize(m[k := v]) == MapSize(m) + PairSize(k, v)
  {
    var n := m[k := v];
    MapSizeRemove(n, k);
    if k in m {
      MapSizeRemove(m, k);
      assert n - {k} == m - {k};
    } else {
      assert n - {k} == m;
    }
  }

  lemma {:induction false} SizeAppend(ps: seq<Pair>, p: Pair)
    ensures Size(ps + [p]) == Size(ps) + PairSize(p.key, p.value)
  {
    if ps != [] {
      assert (ps + [p])[1..] == ps[1..] + [p];
      SizeAppend(ps[1..], p);
    }
  }

  lemma CollectPush(init: seq<Pair>, p: Pair)
    ensures Collect(init + [p]) == Collect(init)[p.key := p.value]
    ensures Collect(init + [p]).Keys == Collect(init).Keys + {p.key}
  {
    assert (init + [p])[..|init|] == init;
  }

  /** Collecting pairs never makes more text than there was, */
  lemma {:induction false} CollectFits(ps: seq<Pair>)
    ensures MapSize(Collect(ps)) <= Size(ps)
  {
    if ps != [] {
      hide MapSize, Size, Collect, PairSize;
      var init, p := ps[..|ps| - 1], ps[|ps| - 1];
      assert ps == init + [p];
      CollectFits(init);
      CollectPush(init, p);
      SizeAppend(init, p);
      MapSizePut(Collect(init), p.key, p.value);
    } else {
      assert Collect(ps) == map[];
    }
  }

  /** nor more keys than pairs, and nothing that was not given. */
  lemma {:induction false} CollectedGiven(ps: seq<Pair>)
    ensures |Collect(ps)| <= |ps|
    ensures forall k :: k in Collect(ps) ==> Pair(k, Collect(ps)[k]) in ps
  {
    if ps != [] {
      hide Collect;
      var init, p := ps[..|ps| - 1], ps[|ps| - 1];
      assert ps == init + [p];
      CollectedGiven(init);
      CollectPush(init, p);
    }
  }

  lemma {:induction false} LineLength(ps: seq<Pair>)
    requires ps != []
    ensures |Line(ps)| == Size(ps) + |ps| - 1
  {
    if |ps| > 1 { LineLength(ps[1..]); } else { assert ps[1..] == []; }
  }

  lemma {:induction false} KeysSize(keys: seq<string>, m: Attrs)
    requires NoDup(keys) && forall k :: k in keys <==> k in m
    ensures Size(PairsOf(keys, m)) == MapSize(m)
  {
    if keys == [] {
      assert m.Keys == {};
    } else {
      MapSizeRemove(m, keys[0]);
      TailKeys(keys, m);
      KeysSize(keys[1..], m - {keys[0]});
    }
  }

  lemma TailKeys(keys: seq<string>, m: Attrs)
    requires NoDup(keys) && keys != [] && forall k :: k in keys <==> k in m
    ensures forall k :: k in keys[1..] <==> k in m - {keys[0]}
    ensures PairsOf(keys, m)[1..] == PairsOf(keys[1..], m - {keys[0]})
  {
    assert keys == [keys[0]] + keys[1..];
    forall k ensures k in keys[1..] <==> k in m - {keys[0]} {
      if k in keys[1..] {
        var i :| 0 <= i < |keys[1..]| && keys[1..][i] == k;
        assert keys[i + 1] != keys[0];
      }
    }
  }

  lemma FormatLength(m: Attrs)
    requires m.Keys != {}
    ensures |Format(m)| == MapSize(m) + |m| - 1
  {
    SortedKeysNoDup(m.Keys);
    KeysSize(SortedKeys(m.Keys), m);
    LineLength(SortedPairs(m));
  }

  lemma RoundTripIsClean(m: Attrs)
    requires ParseMap(Format(m)) == Some(m) && m.Keys != {}
    ensures CleanAttrs(m)
  {
    var ps := Parse(Format(m)).value;
    CollectFits(ps);
    CollectedGiven(ps);
    ParsedFits(Format(m));
    FormatLength(m);
    assert ps != [];
    forall k | k in m ensures CleanPair(Pair(k, m[k])) { assert Pair(k, m[k]) in ps; }
  }

  /** Exactly the maps that survive printing and parsing: no '=' or space in a key, no space in a value, and
      no value that starts with a quote. */
  lemma RoundTripExactlyWhenClean(m: Attrs)
    ensures ParseMap(Format(m)) == Some(m) <==> CleanAttrs(m)
  {
    if CleanAttrs(m) { CleanRoundTrip(m); }
    if ParseMap(Format(m)) == Some(m) && m.Keys != {} { RoundTripIsClean(m); }
  }

  // ---- quoted values ------------------------------------------------------------------------------------------

  /** Backslash before every quote and backslash. */
  function Escape(v: string): string {
    if v == [] then []
    else (if v[0] == '"' || v[0] == '\\' then ['\\', v[0]] else [v[0]]) + Escape(v[1..])
  }

  function Quote(v: string): string { ['"'] + Escape(v) + ['"'] }

  function QuotedCell(p: Pair): string { p.key + ['='] + Quote(p.value) }

  /** key="escaped value" pairs, each followed by the given separator. */
  function QuotedLine(ps: seq<Pair>, separator: string): string {
    if ps == [] then [] else QuotedCell(ps[0]) + separator + QuotedLine(ps[1..], separator)
  }

  /** What is left to read inside the quotes. */
  function Inside(v: string, rest: string): string { Escape(v) + ['"'] + rest }

  lemma InsideNext(v: string, rest: string)
    requires v != []
    ensures Inside(v, rest) == (if v[0] == '"' || v[0] == '\\' then ['\\', v[0]] else [v[0]]) + Inside(v[1..], rest)
  {
  }

  lemma UnquoteEscape(c: char, s: string)
    ensures Quoted(['\\', c] + s) == ([c] + Quoted(s).0, Quoted(s).1)
  {
    assert (['\\', c] + s)[2..] == s;
  }

  lemma UnquotePlain(c: char, s: string)
    requires c != '"' && c != '\\'
    ensures Quoted([c] + s) == ([c] + Quoted(s).0, Quoted(s).1)
  {
    assert ([c] + s)[1..] == s;
  }

  lemma {:induction false} UnescapeEscaped(v: string, rest: string)
    ensures Quoted(Inside(v, rest)) == (v, rest)
  {
    if v == [] {
      assert Inside(v, rest)[1..] == rest;
    } else {
      UnescapeEscaped(v[1..], rest);
      InsideNext(v, rest);
      if v[0] == '"' || v[0] == '\\' {
        UnquoteEscape(v[0], Inside(v[1..], rest));
      } else {
        UnquotePlain(v[0], Inside(v[1..], rest));
      }
      assert [v[0]] + v[1..] == v;
    }
  }

  lemma {:induction false} ParseBlanks(blanks: string, s: string)
    requires forall i :: 0 <= i < |blanks| ==> blanks[i] == ' '
    ensures Parse(blanks + s) == Parse(s)
  {
    if blanks == [] {
      assert blanks + s == s;
    } else {
      assert blanks + s == [' '] + (blanks[1..] + s);
      SkipOne(blanks[1..] + s);
      ParseBlanks(blanks[1..], s);
    }
  }

  lemma QuotedCellText(p: Pair, rest: string)
    ensures QuotedCell(p) + rest == p.key + ['='] + (['"'] + Inside(p.value, rest))
  {
  }

  lemma QuotedValue(v: string, rest: string)
    ensures Value(['"'] + Inside(v, rest)) == (v, rest)
  {
    UnescapeEscaped(v, rest);
    assert (['"'] + Inside(v, rest))[1..] == Inside(v, rest);
  }

  lemma ParseQuotedCell(p: Pair, rest: string)
    requires CleanKey(p.key)
    ensures Parse(QuotedCell(p) + rest) == if Parse(rest).None? then None else Some([p] + Parse(rest).value)
  {
    QuotedValue(p.value, rest);
    QuotedCellText(p, rest);
    ParseFirst(p.key, ['"'] + Inside(p.value, rest), p.value, rest);
  }

  /** Any values at all survive when written in quotes with escapes, whatever blanks separate the pairs, even
      none; the parser keeps every pair, so the last value per key wins. */
  lemma {:induction false} QuotedRoundTrip(ps: seq<Pair>, separator: string)
    requires forall i :: 0 <= i < |ps| ==> CleanKey(ps[i].key)
    requires forall i :: 0 <= i < |separator| ==> separator[i] == ' '
    ensures Parse(QuotedLine(ps, separator)) == Some(ps)
  {
    if ps != [] {
      var more := QuotedLine(ps[1..], separator);
      assert [ps[0]] + ps[1..] == ps;
      QuotedRoundTrip(ps[1..], separator);
      ParseBlanks(separator, more);
      QuotedLineParts(ps[0], ps[1..], separator);
      ParseQuotedCell(ps[0], separator + more);
    }
  }

  lemma QuotedLineParts(p: Pair, rest: seq<Pair>, separator: string)
    ensures QuotedLine([p] + rest, separator) == QuotedCell(p) + (separator + QuotedLine(rest, separator))
  {
    assert ([p] + rest)[1..] == rest;
  }

  /** Collect keeps the last value given for a key. */
  lemma {:induction false} LastValueWins(ps: seq<Pair>, key: string)
    ensures key in Collect(ps) <==> exists i :: 0 <= i < |ps| && ps[i].key == key
    ensures key in Collect(ps) ==>
              exists i :: 0 <= i < |ps| && ps[i] == Pair(key, Collect(ps)[key])
                          && forall j :: i < j < |ps| ==> ps[j].key != key
  {
    if ps != [] {
      var init, last := ps[..|ps| - 1], ps[|ps| - 1];
      LastValueWins(init, key);
      if last.key == key {
        assert ps[|ps| - 1] == Pair(key, Collect(ps)[key]);
      } else if key in Collect(init) {
        var i :| 0 <= i < |init| && init[i] == Pair(key, Collect(init)[key])
                 && forall j :: i < j < |init| ==> init[j].key != key;
        assert ps[i] == Pair(key, Collect(ps)[key]);
      }
    }
  }
}
