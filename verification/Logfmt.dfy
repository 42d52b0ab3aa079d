// The logfmt parser (internal/receiver/logtail.go) and the attribute printer (internal/tui/panels/logs.go).
module Logfmt {
  import opened Common

  datatype Pair = Pair(key: string, value: string)

  // ---- what the parser reads, as a function of the rest of the line ------------------------------------

  function SkipSpaces(s: string): (r: string)
    ensures |r| <= |s| && (r != [] ==> r[0] != ' ')
  {
    if s != [] && s[0] == ' ' then SkipSpaces(s[1..]) else s
  }

  /** Up to the first '=' or space. */
  function Key(s: string): (k: string)
    ensures |k| <= |s| && s[..|k|] == k
    ensures |k| < |s| ==> s[|k|] == '=' || s[|k|] == ' '
  {
    if s == [] || s[0] == '=' || s[0] == ' ' then [] else [s[0]] + Key(s[1..])
  }

  /** Up to the first space. */
  function Bare(s: string): (v: string)
    ensures |v| <= |s| && s[..|v|] == v
    ensures |v| < |s| ==> s[|v|] == ' '
  {
    if s == [] || s[0] == ' ' then [] else [s[0]] + Bare(s[1..])
  }

  /** The unescaped text up to an unescaped quote, and what follows it. A line may end inside the quotes. */
  function Quoted(s: string): (r: (string, string))
    ensures |r.0| + |r.1| <= |s|
    ensures r.1 != [] ==> |r.0| + |r.1| < |s|
  {
    if s == [] then ([], [])
    else if s[0] == '\\' && |s| > 1 then
      var r := Quoted(s[2..]);
      ([s[1]] + r.0, r.1)
    else if s[0] == '"' then ([], s[1..])
    else
      var r := Quoted(s[1..]);
      ([s[0]] + r.0, r.1)
  }

  function Value(s: string): (r: (string, string))
    ensures |r.0| + |r.1| <= |s|
  {
    if s != [] && s[0] == '"' then Quoted(s[1..]) else (Bare(s), s[|Bare(s)|..])
  }

  /** The pairs on the line, or None when a key has no '='. */
  function Parse(s: string): Option<seq<Pair>>
    decreases |s|
  {
    var t := SkipSpaces(s);
    if t == [] then Some([])
    else
      var k := Key(t);
      if |k| == |t| || t[|k|] != '=' then None
      else
        var v := Value(t[|k| + 1..]);
        var rest := Parse(v.1);
        if rest.None? then None else Some([Pair(k, v.0)] + rest.value)
  }

  /** The map the pairs leave: later values win. */
  function Collect(ps: seq<Pair>): map<string, string> {
    if ps == [] then map[] else Collect(ps[..|ps| - 1])[ps[|ps| - 1].key := ps[|ps| - 1].value]
  }

  function ParseMap(s: string): Option<map<string, string>> {
    var ps := Parse(s);
    if ps.None? then None else Some(Collect(ps.value))
  }

  // ---- the parser's loops --------------------------------------------------------------------------------

  method SkipBlanks(line: string, start: nat) returns (i: nat)
    requires start <= |line|
    ensures start <= i <= |line| && line[i..] == SkipSpaces(line[start..])
  {
    i := start;
    while i < |line| && line[i] == ' '
      invariant start <= i <= |line| && SkipSpaces(line[i..]) == SkipSpaces(line[start..])
    {
      assert line[i..][1..] == line[i + 1..];
      i := i + 1;
    }
  }

  lemma ScanOne(line: string, start: nat, i: nat, tail: string)
    requires start <= i < |line|
    ensures line[start..i] + ([line[i]] + tail) == line[start..i + 1] + tail
  {
  }

  lemma KeyStep(line: string, start: nat, i: nat)
    requires start <= i < |line| && line[i] != '=' && line[i] != ' '
    ensures line[start..i] + Key(line[i..]) == line[start..i + 1] + Key(line[i + 1..])
  {
    assert line[i..][1..] == line[i + 1..];
    ScanOne(line, start, i, Key(line[i + 1..]));
  }

  lemma KeyEnds(line: string, start: nat, i: nat)
    requires start <= i <= |line| && (i < |line| ==> line[i] == '=' || line[i] == ' ')
    ensures line[start..i] + Key(line[i..]) == line[start..i]
  {
    assert Key(line[i..]) == [];
  }

  method ScanKey(line: string, start: nat) returns (i: nat)
    requires start <= |line|
    ensures start <= i <= |line| && line[start..i] == Key(line[start..])
  {
    i := start;
    ghost var all := Key(line[start..]);
    assert line[start..start] + Key(line[start..]) == all;
    while i < |line| && line[i] != '=' && line[i] != ' '
      invariant start <= i <= |line| && line[start..i] + Key(line[i..]) == all
    {
      KeyStep(line, start, i);
      i := i + 1;
    }
    KeyEnds(line, start, i);
  }

  lemma BareStep(line: string, start: nat, i: nat)
    requires start <= i < |line| && line[i] != ' '
    ensures line[start..i] + Bare(line[i..]) == line[start..i + 1] + Bare(line[i + 1..])
  {
    assert line[i..][1..] == line[i + 1..];
    ScanOne(line, start, i, Bare(line[i + 1..]));
  }

  lemma BareEnds(line: string, start: nat, i: nat)
    requires start <= i <= |line| && (i < |line| ==> line[i] == ' ')
    ensures line[start..i] + Bare(line[i..]) == line[start..i]
  {
    assert Bare(line[i..]) == [];
  }

  method ScanBare(line: string, start: nat) returns (i: nat)
    requires start <= |line|
    ensures start <= i <= |line| && line[start..i] == Bare(line[start..])
  {
    i := start;
    ghost var all := Bare(line[start..]);
    assert line[start..start] + Bare(line[start..]) == all;
    while i < |line| && line[i] != ' '
      invariant start <= i <= |line| && line[start..i] + Bare(line[i..]) == all
    {
      BareStep(line, start, i);
      i := i + 1;
    }
    BareEnds(line, start, i);
  }

  lemma Regroup(sb: string, c: char, tail: string)
    ensures sb + ([c] + tail) == sb + [c] + tail
  {
  }

  lemma QuotedEscape(line: string, i: nat, sb: string)
    requires i + 1 < |line| && line[i] == '\\'
    ensures sb + Quoted(line[i..]).0 == sb + [line[i + 1]] + Quoted(line[i + 2..]).0
    ensures Quoted(line[i..]).1 == Quoted(line[i + 2..]).1
  {
    assert line[i..][2..] == line[i + 2..];
    Regroup(sb, line[i + 1], Quoted(line[i + 2..]).0);
  }

  lemma QuotedPlain(line: string, i: nat, sb: string)
    requires i < |line| && line[i] != '"' && (line[i] == '\\' ==> i + 1 == |line|)
    ensures sb + Quoted(line[i..]).0 == sb + [line[i]] + Quoted(line[i + 1..]).0
    ensures Quoted(line[i..]).1 == Quoted(line[i + 1..]).1
  {
    assert line[i..][1..] == line[i + 1..];
    Regroup(sb, line[i], Quoted(line[i + 1..]).0);
  }

  lemma QuotedStops(line: string, i: nat)
    requires i <= |line| && (i < |line| ==> line[i] == '"')
    ensures Quoted(line[i..]) == ([], if i < |line| then line[i + 1..] else line[i..])
  {
    if i < |line| { assert line[i..][1..] == line[i + 1..]; }
  }

  method ScanQuoted(line: string, start: nat) returns (sb: string, i: nat)
    requires start <= |line|
    ensures start <= i <= |line| && (sb, line[i..]) == Quoted(line[start..])
  {
    i, sb := start, "";
    assert "" + Quoted(line[start..]).0 == Quoted(line[start..]).0;
    while i < |line|
      invariant start <= i <= |line|
      invariant Quoted(line[start..]) == (sb + Quoted(line[i..]).0, Quoted(line[i..]).1)
    {
      if line[i] == '\\' && i + 1 < |line| {
        QuotedEscape(line, i, sb);
        sb := sb + [line[i + 1]];
        i := i + 2;
        continue;
      }
      if line[i] == '"' { break; }
      QuotedPlain(line, i, sb);
      sb := sb + [line[i]];
      i := i + 1;
    }
    QuotedStops(line, i);
    assert sb + [] == sb;
    if i < |line| && line[i] == '"' {
      i := i + 1;
    }
  }

  method ScanValue(line: string, start: nat) returns (val: string, i: nat)
    requires start <= |line|
    ensures start <= i <= |line| && (val, line[i..]) == Value(line[start..])
  {
    if start < |line| && line[start] == '"' {
      assert line[start..][1..] == line[start + 1..];
      val, i := ScanQuoted(line, start + 1);
    } else {
      i := ScanBare(line, start);
      val := line[start..i];
      assert line[start..][|val|..] == line[i..];
    }
  }

  /** Parsing from i on completes what has been collected so far. */
  ghost predicate Resumes(line: string, i: nat, done: seq<Pair>)
    requires i <= |line|
  {
    var rest := Parse(line[i..]);
    Parse(line) == if rest.None? then None else Some(done + rest.value)
  }

  /** One pair and then the rest of the text. */
  lemma ParseOne(s: string, k: string, after: string, v: string, rest: string)
    requires SkipSpaces(s) == k + ['='] + after && Key(SkipSpaces(s)) == k && Value(after) == (v, rest)
    ensures Parse(s) == if Parse(rest).None? then None else Some([Pair(k, v)] + Parse(rest).value)
  {
    var t := SkipSpaces(s);
    assert t[|k|] == '=' && t[|k| + 1..] == after;
  }

  lemma ParsePair(line: string, i: nat, j: nat, e: nat, v: string, n: nat)
    requires i <= j < |line| && j <= e < |line| && n <= |line|
    requires line[j..] == SkipSpaces(line[i..]) && line[j..e] == Key(line[j..]) && line[e] == '='
    requires (v, line[n..]) == Value(line[e + 1..])
    ensures var rest := Parse(line[n..]);
            Parse(line[i..]) == if rest.None? then None else Some([Pair(line[j..e], v)] + rest.value)
  {
    assert line[j..] == line[j..e] + ['='] + line[e + 1..];
    ParseOne(line[i..], line[j..e], line[e + 1..], v, line[n..]);
  }

  lemma ResumesThen(line: string, i: nat, n: nat, p: Pair, done: seq<Pair>)
    requires i <= |line| && n <= |line| && Resumes(line, i, done)
    requires Parse(line[i..]) == if Parse(line[n..]).None? then None else Some([p] + Parse(line[n..]).value)
    ensures Resumes(line, n, done + [p])
  {
    var rest := Parse(line[n..]);
    if rest.Some? {
      assert done + ([p] + rest.value) == done + [p] + rest.value;
    }
  }

  lemma ResumeNext(line: string, i: nat, j: nat, e: nat, v: string, n: nat, done: seq<Pair>)
    requires i <= j < |line| && j <= e < |line| && n <= |line| && Resumes(line, i, done)
    requires line[j..] == SkipSpaces(line[i..]) && line[j..e] == Key(line[j..]) && line[e] == '='
    requires (v, line[n..]) == Value(line[e + 1..])
    ensures Resumes(line, n, done + [Pair(line[j..e], v)])
  {
    ParsePair(line, i, j, e, v, n);
    ResumesThen(line, i, n, Pair(line[j..e], v), done);
  }

  lemma NoEquals(line: string, i: nat, j: nat, e: nat, done: seq<Pair>)
    requires i <= j < |line| && j <= e <= |line| && Resumes(line, i, done)
    requires line[j..] == SkipSpaces(line[i..]) && line[j..e] == Key(line[j..])
    requires e == |line| || line[e] != '='
    ensures Parse(line) == None
  {
    assert e < |line| ==> line[j..][e - j] == line[e];
    assert Parse(line[i..]) == None;
  }

  method ParseLogfmtPairs(line: string) returns (out: Option<map<string, string>>)
    ensures out == ParseMap(line)
  {
    var m: map<string, string> := map[];
    var i := 0;
    ghost var done: seq<Pair> := [];
    assert line[0..] == line;
    assert Parse(line).Some? ==> done + Parse(line).value == Parse(line).value;
    while i < |line|
      invariant i <= |line| && Resumes(line, i, done) && m == Collect(done)
      decreases |line| - i
    {
      var j := SkipBlanks(line, i);
      if j >= |line| {
        assert Parse(line[i..]) == Some([]);
        assert done + [] == done;
        return Some(m);
      }
      var e := ScanKey(line, j);
      if e >= |line| || line[e] != '=' {
        NoEquals(line, i, j, e, done);
        return None;
      }
      var key := line[j..e];
      var val, n := ScanValue(line, e + 1);
      ResumeNext(line, i, j, e, val, n, done);
      CollectNext(done, Pair(key, val));
      m, done, i := m[key := val], done + [Pair(key, val)], n;
    }
    assert line[i..] == [] && done + [] == done;
    return Some(m);
  }

  lemma CollectNext(ps: seq<Pair>, p: Pair)
    ensures Collect(ps + [p]) == Collect(ps)[p.key := p.value]
  {
    assert (ps + [p])[..|ps|] == ps;
  }
}
