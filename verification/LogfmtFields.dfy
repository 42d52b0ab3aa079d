// The parser against a plain reading of the line: internal/receiver/logtail.go, parseLogfmtPairs.
module LogfmtFields {
  import opened Common
  import opened SortedStrings
  import opened Logfmt
  import opened LogfmtRoundTrip

  // ---- lines without quotes ----------------------------------------------------------------------------------

  /** The words of a line, as blanks separate them. */
  function Words(s: string): (r: seq<string>)
    ensures s != [] && s[0] != ' ' ==> r != []
  {
    if s == [] then []
    else if s[0] == ' ' then Words(s[1..])
    else if |s| == 1 || s[1] == ' ' then [[s[0]]] + Words(s[1..])
    else
      var r := Words(s[1..]);
      [[s[0]] + r[0]] + r[1..]
  }

  /** A word cut at its first '='. */
  function PairIn(w: string): Pair
    requires '=' in w
  {
    UntilBefore(w);
    Pair(Until(w, '='), w[|Until(w, '=')| + 1..])
  }

  lemma {:induction false} UntilBefore(w: string)
    ensures |Until(w, '=')| <= |w| && (|Until(w, '=')| < |w| <==> '=' in w)
  {
    if w != [] && w[0] != '=' { UntilBefore(w[1..]); }
  }

  function PairsIn(words: seq<string>): (r: seq<Pair>)
    requires forall w :: w in words ==> '=' in w
    ensures |r| == |words|
  {
    seq(|words|, i requires 0 <= i < |words| => PairIn(words[i]))
  }

  lemma {:induction false} FirstWord(s: string)
    requires s != [] && s[0] != ' '
    ensures Words(s) == [Bare(s)] + Words(s[|Bare(s)|..])
  {
    if |s| == 1 || s[1] == ' ' {
      assert Bare(s[1..]) == [] && Bare(s) == [s[0]];
    } else {
      FirstWord(s[1..]);
      assert s[1..][|Bare(s[1..])|..] == s[|Bare(s)|..];
    }
  }

  lemma WordStep(s: string)
    requires s != [] && s[0] != ' ' && s[0] != '='
    ensures Key(s) == [s[0]] + Key(s[1..]) && Bare(s) == [s[0]] + Bare(s[1..])
    ensures Until(Bare(s), '=') == [s[0]] + Until(Bare(s[1..]), '=')
    ensures '=' in Bare(s) <==> '=' in Bare(s[1..])
  {
    assert Bare(s)[1..] == Bare(s[1..]);
  }

  lemma WordEnds(s: string)
    requires s == [] || s[0] == ' ' || s[0] == '='
    ensures Key(s) == Until(Bare(s), '=') == []
    ensures '=' in Bare(s) <==> s != [] && s[0] == '='
  {
    if s != [] && s[0] == '=' { assert Bare(s)[0] == '='; }
  }

  /** The key of a word that has an '=' ends there, and one without has no key on the line. */
  lemma {:induction false} KeyOfWord(s: string)
    ensures Key(s) == Until(Bare(s), '=')
    ensures '=' in Bare(s) <==> |Key(s)| < |s| && s[|Key(s)|] == '='
  {
    hide Key, Bare, Until;
    if s == [] || s[0] == ' ' || s[0] == '=' {
      WordEnds(s);
    } else {
      KeyOfWord(s[1..]);
      WordStep(s);
    }
  }

  /** What is left of a word behind the first n of its characters. */
  lemma {:induction false} BareTail(s: string, n: nat)
    requires n <= |Bare(s)|
    ensures Bare(s[n..]) == Bare(s)[n..]
  {
    if n > 0 {
      BareTail(s[1..], n - 1);
      assert s[1..][n - 1..] == s[n..] && Bare(s)[n..] == Bare(s[1..])[n - 1..];
    } else {
      assert s[0..] == s && Bare(s)[0..] == Bare(s);
    }
  }

  /** One step of the parser on such a line. */
  lemma ParseWord(s: string)
    requires s != [] && s[0] != ' ' && '"' !in s
    ensures var w, rest := Bare(s), Parse(s[|Bare(s)|..]);
            Parse(s) == if '=' !in w || rest.None? then None else Some([PairIn(w)] + rest.value)
  {
    KeyOfWord(s);
    if '=' in Bare(s) {
      ParsePairWord(s);
    } else {
      assert SkipSpaces(s) == s;
      hide Key, Bare;
    }
  }

  lemma ParsePairWord(s: string)
    requires s != [] && s[0] != ' ' && '"' !in s && '=' in Bare(s)
    requires Key(s) == Until(Bare(s), '=') && |Key(s)| < |s| && s[|Key(s)|] == '='
    ensures var w, rest := Bare(s), Parse(s[|Bare(s)|..]);
            Parse(s) == if rest.None? then None else Some([PairIn(w)] + rest.value)
  {
    hide Key, Bare, Parse, Until, SkipSpaces, Value;
    var w, k := Bare(s), Key(s);
    NoBlanks(s);
    UntilBefore(w);
    BareTail(s, |k| + 1);
    UnquotedValue(s[|k| + 1..]);
    WordParts(s, |k|, |w|);
    ParseOne(s, k, s[|k| + 1..], w[|k| + 1..], s[|w|..]);
  }

  lemma NoBlanks(s: string)
    requires s != [] && s[0] != ' '
    ensures SkipSpaces(s) == s
  {
  }

  lemma WordParts(s: string, k: nat, w: nat)
    requires k < w <= |s| && s[k] == '='
    ensures s == s[..k] + ['='] + s[k + 1..] && s[k + 1..][w - k - 1..] == s[w..]
  {
  }

  lemma UnquotedValue(s: string)
    requires '"' !in s
    ensures Value(s) == (Bare(s), s[|Bare(s)|..])
  {
  }

  /** A line without quotes parses exactly when every word on it has an '=', and then to the words cut at their first
      '=', in order. */
  lemma {:induction false} ParsesByWords(s: string)
    requires '"' !in s
    ensures Parse(s).Some? <==> forall w :: w in Words(s) ==> '=' in w
    ensures Parse(s).Some? ==> Parse(s).value == PairsIn(Words(s))
    decreases |s|
  {
    if s == [] {
    } else if s[0] == ' ' {
      ParsesByWords(s[1..]);
      assert s == [' '] + s[1..];
      SkipOne(s[1..]);
    } else {
      var rest := s[|Bare(s)|..];
      ParsesByWords(rest);
      FirstWord(s);
      ParseWord(s);
      hide Parse, Bare, Words, PairIn;
      WordsThen(Bare(s), Words(rest));
    }
  }

  lemma WordsThen(w: string, words: seq<string>)
    ensures (forall x :: x in [w] + words ==> '=' in x) <==> '=' in w && forall x :: x in words ==> '=' in x
    ensures (forall x :: x in [w] + words ==> '=' in x) ==> PairsIn([w] + words) == [PairIn(w)] + PairsIn(words)
  {
    assert forall x :: x in [w] + words <==> x == w || x in words;
  }

  // ---- quotes that the line does not close -------------------------------------------------------------------

  lemma UnclosedEnd(tail: string)
    requires tail == "" || tail == "\\"
    ensures Quoted(tail) == (tail, [])
  {
    if tail != "" {
      assert tail[0] == '\\' && tail[1..] == [];
      assert Quoted(tail[1..]) == ([], []);
      assert ['\\'] + [] == tail;
    }
  }

  lemma Regrouped(a: string, b: string, c: string)
    ensures a + b + c == a + (b + c)
  {
  }

  lemma EscapeFirst(v: string)
    requires v != []
    ensures Escape(v) == (if v[0] == '"' || v[0] == '\\' then ['\\', v[0]] else [v[0]]) + Escape(v[1..])
    ensures v == [v[0]] + v[1..]
  {
  }

  lemma EscapeStep(v: string, tail: string)
    requires v != []
    ensures Escape(v) + tail ==
            (if v[0] == '"' || v[0] == '\\' then ['\\', v[0]] else [v[0]]) + (Escape(v[1..]) + tail)
    ensures [v[0]] + (v[1..] + tail) == v + tail
  {
    hide Escape;
    EscapeFirst(v);
    Regrouped(if v[0] == '"' || v[0] == '\\' then ['\\', v[0]] else [v[0]], Escape(v[1..]), tail);
    Regrouped([v[0]], v[1..], tail);
  }

  lemma {:induction false} UnclosedEscaped(v: string, tail: string)
    requires tail == "" || tail == "\\"
    ensures Quoted(Escape(v) + tail) == (v + tail, [])
  {
    if v == [] {
      assert Escape(v) + tail == tail && v + tail == tail;
      UnclosedEnd(tail);
    } else {
      hide Quoted, Escape;
      var more := Escape(v[1..]) + tail;
      UnclosedEscaped(v[1..], tail);
      EscapeStep(v, tail);
      if v[0] == '"' || v[0] == '\\' { UnquoteEscape(v[0], more); } else { UnquotePlain(v[0], more); }
    }
  }

  /** A quote the line does not close takes the rest of it, a backslash at the very end standing for itself. */
  lemma UnclosedQuote(k: string, v: string, tail: string)
    requires CleanKey(k) && (tail == "" || tail == "\\")
    ensures Parse(k + ['='] + (['"'] + (Escape(v) + tail))) == Some([Pair(k, v + tail)])
  {
    var text := ['"'] + (Escape(v) + tail);
    UnclosedEscaped(v, tail);
    assert text[1..] == Escape(v) + tail;
    ParseFirst(k, text, v + tail, []);
    assert Parse([]) == Some([]) && [Pair(k, v + tail)] + [] == [Pair(k, v + tail)];
  }
}
