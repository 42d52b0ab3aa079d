// What the bar of a row shows of its span, cell by cell: internal/render/waterfall.go, buildBar.
module BarShape {
  import opened Common
  import opened TraceModel
  import opened Waterfall

  // ---- where the bar starts and how long it is, in eighths of a cell -------------------------------------------

  /** The eighth in which the span starts; a span that starts before the trace starts in the first one, a span that
      starts after it in none. */
  ghost predicate StartsAt(start: nat, span: Span, traceStart: int, total: int, width: nat) {
    if span.start <= traceStart then start == 0
    else if span.start >= traceStart + total then start == 8 * width
    else start * total <= (span.start - traceStart) * (8 * width) < (start + 1) * total
  }

  /** How many whole eighths the span is long. */
  ghost predicate IsWhole(whole: nat, span: Span, total: int, width: nat) {
    if span.duration <= 0 then whole == 0
    else whole * total <= span.duration * (8 * width) < (whole + 1) * total
  }

  /** They are drawn, at least one, but no more than are left after the start. */
  ghost predicate Lasts(length: nat, start: nat, span: Span, total: int, width: nat) {
    exists whole: nat :: IsWhole(whole, span, total, width) && length == Min(Max(whole, 1), 8 * width - start)
  }

  lemma RealTimes(a: int, b: int)
    ensures (a * b) as real == a as real * b as real
  {
  }

  lemma LessTimes(x: real, y: real, n: real)
    requires n > 0.0
    ensures x <= y ==> x * n <= y * n
    ensures x < y ==> x * n < y * n
  {
  }

  lemma QuotientTimes(x: int, total: int, units: nat)
    requires total > 0
    ensures x as real / total as real * units as real * total as real == (x * units) as real
  {
    var q := x as real / total as real;
    assert q * total as real == x as real;
    assert q * units as real * total as real == q * total as real * units as real;
    RealTimes(x, units);
  }

  lemma RoundsDown(whole: int, r: real, total: nat, product: nat)
    requires whole as real <= r < (whole + 1) as real && total > 0 && r * total as real == product as real
    ensures whole * total <= product < (whole + 1) * total
  {
    var next := whole + 1;
    Between(whole as real, r, next as real, total as real, product as real);
    RealTimes(whole, total);
    RealTimes(next, total);
    assert (whole * total) as real <= product as real < (next * total) as real;
  }

  lemma Between(a: real, r: real, b: real, n: real, p: real)
    requires a <= r < b && n > 0.0 && r * n == p
    ensures a * n <= p < b * n
  {
    LessTimes(a, r, n);
    LessTimes(r, b, n);
  }

  /** Scaling rounds down. */
  lemma ScaleRounds(x: int, total: int, units: nat)
    requires total > 0 && x >= 0
    ensures var k := Scale(x, total, units); k >= 0 && k * total <= x * units < (k + 1) * total
  {
    var r := x as real / total as real * units as real;
    ScaledSign(x, total, units);
    QuotientTimes(x, total, units);
    assert x * units >= 0;
    RoundsDown(r.Floor, r, total, x * units);
  }

  lemma ScaledSign(x: int, total: int, units: nat)
    requires total > 0
    ensures x >= 0 ==> x as real / total as real * units as real >= 0.0
    ensures x <= 0 ==> x as real / total as real * units as real <= 0.0
  {
    var q := x as real / total as real;
    assert x >= 0 ==> q >= 0.0;
    assert x <= 0 ==> q <= 0.0;
  }

  lemma ScaleNegative(x: int, total: int, units: nat)
    requires total > 0 && x <= 0
    ensures Scale(x, total, units) <= 0
  {
    ScaledSign(x, total, units);
  }

  lemma FloorUnique(a: int, b: int, total: nat, product: int)
    requires total > 0 && a * total <= product < (a + 1) * total && b * total <= product < (b + 1) * total
    ensures a == b
  {
    OrderTimes(a + 1, b, total);
    OrderTimes(b + 1, a, total);
  }

  lemma OrderTimes(a: int, b: int, n: int)
    requires n > 0
    ensures a <= b ==> a * n <= b * n
  {
  }

  lemma StartIsClamped(start: nat, span: Span, traceStart: int, total: int, width: nat)
    requires total > 0 && width > 0 && StartsAt(start, span, traceStart, total, width)
    ensures start == ClampOffset(Scale(span.start - traceStart, total, width * 8), width * 8)
  {
    hide Scale;
    var x, units := span.start - traceStart, 8 * width;
    ScaleBelow(x, total, units);
    if x <= 0 {
      ScaleNegative(x, total, units);
    } else if x < total {
      ScaleRounds(x, total, units);
      FloorUnique(start, Scale(x, total, units), total, x * units);
    }
  }

  lemma LengthIsClamped(length: nat, start: nat, span: Span, total: int, width: nat)
    requires total > 0 && width > 0 && start <= 8 * width && Lasts(length, start, span, total, width)
    ensures length == ClampDur(Scale(span.duration, total, width * 8), width * 8, start)
  {
    hide Scale;
    var x, units := span.duration, 8 * width;
    var whole: nat :| IsWhole(whole, span, total, width) && length == Min(Max(whole, 1), units - start);
    if x <= 0 {
      ScaleNegative(x, total, units);
    } else {
      ScaleRounds(x, total, units);
      FloorUnique(whole, Scale(x, total, units), total, x * units);
    }
  }

  lemma StartFits(start: nat, span: Span, traceStart: int, total: int, width: nat)
    requires total > 0 && width > 0 && StartsAt(start, span, traceStart, total, width)
    ensures start <= 8 * width
  {
    StartIsClamped(start, span, traceStart, total, width);
  }

  /** The bar drawn for the span before padding or cutting. */
  lemma CellsAreOf(start: nat, length: nat, span: Span, traceStart: int, total: int, width: nat)
    requires total > 0 && width > 0
    requires StartsAt(start, span, traceStart, total, width) && Lasts(length, start, span, total, width)
    ensures start + length <= 8 * width && RawCells(span, traceStart, total, width) == RawBar(start, length)
    ensures length == 0 <==> start == 8 * width
  {
    hide Scale, RawBar;
    StartFits(start, span, traceStart, total, width);
    StartIsClamped(start, span, traceStart, total, width);
    LengthIsClamped(length, start, span, total, width);
  }

  // ---- what each cell shows ----------------------------------------------------------------------------------

  /** How many eighths of a cell a character fills. */
  function Eighths(c: char): nat {
    match c
    case '▏' => 1
    case '▎' => 2
    case '▍' => 3
    case '▌' => 4
    case '▋' => 5
    case '▊' => 6
    case '▉' => 7
    case '█' => 8
    case _ => 0
  }

  /** At most a whole cell. */
  function Filled(eighths: int): nat { if eighths < 0 then 0 else if eighths > 8 then 8 else eighths }

  lemma EighthsOf(k: nat)
    requires k < 9
    ensures Eighths(BLOCKS[k]) == k && (BLOCKS[k] != ' ' <==> k > 0)
  {
  }

  /** What is left of the length behind a first cell that only marks the start. */
  function Rest(length: nat): nat { if length >= 8 then length - 8 else length }

  /** Cell i of the bar: blank before the start; from a start at a cell's edge on, the length, cell by cell; from any
      other start on, a first cell with as many eighths as the start lies inside it, then the rest. */
  function CellOf(start: nat, length: nat, i: nat): nat {
    var first := start / 8;
    if i < first then 0
    else if start % 8 == 0 then Filled(length - 8 * (i - first))
    else if i == first then start % 8
    else Filled(Rest(length) - 8 * (i - first - 1))
  }

  /** The bar shows in every cell what it should, cell for cell, and nothing but blocks and blanks. */
  ghost predicate Draws(bar: string, start: nat, length: nat) {
    forall i :: 0 <= i < |bar| ==>
      Eighths(bar[i]) == CellOf(start, length, i) && (bar[i] != ' ' <==> CellOf(start, length, i) > 0)
  }

  lemma RawCell(start: nat, length: nat, i: nat)
    requires i < |RawBar(start, length)|
    ensures var c := RawBar(start, length)[i];
            Eighths(c) == CellOf(start, length, i) && (c != ' ' <==> CellOf(start, length, i) > 0)
  {
    EighthsOf(start % 8);
    EighthsOf(length % 8);
    EighthsOf(8);
    EighthsOf(0);
  }

  /** The cells behind a bar that is not cut are blank. */
  lemma PastCells(start: nat, length: nat, i: nat)
    requires i >= |RawBar(start, length)|
    ensures CellOf(start, length, i) == 0
  {
  }

  lemma FitDraws(start: nat, length: nat, width: nat)
    ensures Draws(Fit(RawBar(start, length), width), start, length)
  {
    var bar := Fit(RawBar(start, length), width);
    hide RawBar, CellOf, Eighths;
    forall i | 0 <= i < |bar|
      ensures Eighths(bar[i]) == CellOf(start, length, i) && (bar[i] != ' ' <==> CellOf(start, length, i) > 0)
    {
      if i < |RawBar(start, length)| {
        RawCell(start, length, i);
      } else {
        PastCells(start, length, i);
        EighthsOf(0);
      }
    }
  }

  /** The bar of a span, from the span alone. */
  lemma BarOfSpan(start: nat, length: nat, span: Span, traceStart: int, total: int, width: nat)
    requires total > 0 && width > 0
    requires StartsAt(start, span, traceStart, total, width) && Lasts(length, start, span, total, width)
    ensures Draws(Fit(RawCells(span, traceStart, total, width), width), start, length)
  {
    CellsAreOf(start, length, span, traceStart, total, width);
    FitDraws(start, length, width);
  }

  // ---- where it begins and how many cells it has -------------------------------------------------------------

  function Inked(): char -> bool { c => c != ' ' }

  /** How many cells of the bar show something. */
  function CellCount(bar: string): nat { |Filter(bar, Inked())| }

  lemma CountBetween(bar: string, a: nat, b: nat)
    requires a <= b <= |bar| && forall i :: 0 <= i < |bar| ==> (bar[i] != ' ' <==> a <= i < b)
    ensures CellCount(bar) == b - a
  {
    assert bar == bar[..a] + (bar[a..b] + bar[b..]);
    NonePass(bar[..a], Inked());
    AllPass(bar[a..b], Inked());
    NonePass(bar[b..], Inked());
    FilterConcat(bar[a..b], bar[b..], Inked());
    FilterConcat(bar[..a], bar[a..b] + bar[b..], Inked());
  }

  /** The cells a bar of this start and length takes: as many as it touches, when it starts at a cell's edge; else one
      for the start, and as many as the rest touches. */
  function CellsTaken(start: nat, length: nat): nat {
    if length == 0 then 0 else if start % 8 == 0 then (length + 7) / 8 else 1 + (Rest(length) + 7) / 8
  }

  lemma InkedBetween(start: nat, length: nat, i: nat)
    requires length > 0
    ensures CellOf(start, length, i) > 0 <==> start / 8 <= i < start / 8 + CellsTaken(start, length)
  {
  }

  /** The first cell that shows something is the one in which the span starts; the cells that do follow each other
      without a gap; and their number is that of the cells taken, unless the last of them falls behind the bar's end. */
  lemma BarExtends(start: nat, length: nat, span: Span, traceStart: int, total: int, width: nat)
    requires total > 0 && width > 0
    requires StartsAt(start, span, traceStart, total, width) && Lasts(length, start, span, total, width)
    ensures var bar := Fit(RawCells(span, traceStart, total, width), width);
            var shown := Min(CellsTaken(start, length), width - start / 8);
            && (forall i :: 0 <= i < width ==> (bar[i] != ' ' <==> start / 8 <= i < start / 8 + shown))
            && CellCount(bar) == shown
  {
    var bar := Fit(RawCells(span, traceStart, total, width), width);
    var shown := Min(CellsTaken(start, length), width - start / 8);
    BarOfSpan(start, length, span, traceStart, total, width);
    CellsAreOf(start, length, span, traceStart, total, width);
    hide CellOf, RawCells, Fit, CellsTaken, StartsAt, Lasts;
    forall i | 0 <= i < width ensures bar[i] != ' ' <==> start / 8 <= i < start / 8 + shown {
      if length > 0 { InkedBetween(start, length, i); }
    }
    NoCells(start);
    CountBetween(bar, start / 8, start / 8 + shown);
  }

  lemma NoCells(start: nat)
    ensures CellsTaken(start, 0) == 0
  {
  }

  // ---- a longer span ---------------------------------------------------------------------------------------

  lemma WholeGrows(v: nat, w: nat, a: Span, b: Span, total: int, width: nat)
    requires total > 0 && a.duration <= b.duration && IsWhole(v, a, total, width) && IsWhole(w, b, total, width)
    ensures v <= w
  {
    if 0 < a.duration {
      OrderTimes(w + 1, v, total);
      ProductGrows(a.duration, b.duration, 8 * width);
    }
  }

  lemma ProductGrows(x: int, y: int, n: nat)
    requires x <= y
    ensures x * n <= y * n
  {
  }

  lemma LengthGrows(l: nat, m: nat, start: nat, a: Span, b: Span, total: int, width: nat)
    requires total > 0 && a.duration <= b.duration && start <= 8 * width
    requires Lasts(l, start, a, total, width) && Lasts(m, start, b, total, width)
    ensures l <= m
  {
    var v: nat :| IsWhole(v, a, total, width) && l == Min(Max(v, 1), 8 * width - start);
    var w: nat :| IsWhole(w, b, total, width) && m == Min(Max(w, 1), 8 * width - start);
    WholeGrows(v, w, a, b, total, width);
  }

  lemma TakenGrows(start: nat, l: nat, m: nat, room: nat)
    requires l <= m && (l == 0 <==> m == 0)
    requires start % 8 > 0 && m >= 8 ==> room >= 2
    ensures Min(CellsTaken(start, l), room) > Min(CellsTaken(start, m), room) <==>
            start % 8 > 0 && 0 < l < 8 && m == 8
  {
  }

  /** Of two spans with one start the longer takes at least as many cells, except when both start inside a cell, the
      shorter is shorter than a cell and the longer, scaled, is exactly one cell long: then it takes one cell less. */
  lemma LongerTakesFewerIff(l: nat, m: nat, start: nat, a: Span, b: Span, traceStart: int, total: int, width: nat)
    requires total > 0 && width > 0 && a.start == b.start && a.duration <= b.duration
    requires StartsAt(start, a, traceStart, total, width)
    requires Lasts(l, start, a, total, width) && Lasts(m, start, b, total, width)
    ensures var bar := Fit(RawCells(a, traceStart, total, width), width);
            var longer := Fit(RawCells(b, traceStart, total, width), width);
            CellCount(bar) > CellCount(longer) <==> start % 8 > 0 && l < 8 && m == 8
  {
    BarExtends(start, l, a, traceStart, total, width);
    BarExtends(start, m, b, traceStart, total, width);
    CellsAreOf(start, l, a, traceStart, total, width);
    CellsAreOf(start, m, b, traceStart, total, width);
    hide CellCount, Fit, RawCells, CellsTaken, StartsAt;
    LengthGrows(l, m, start, a, b, total, width);
    hide Lasts;
    TakenGrows(start, l, m, width - start / 8);
  }

  /** It happens: in a trace of eighty nanoseconds drawn in ten cells, a span that starts at one takes two cells when it
      lasts seven, and one when it lasts eight. */
  lemma LongerTakesFewer(a: Span, b: Span)
    requires a.start == b.start == 1 && a.duration == 7 && b.duration == 8
    ensures CellCount(Fit(RawCells(a, 0, 80, 10), 10)) == 2 && CellCount(Fit(RawCells(b, 0, 80, 10), 10)) == 1
  {
    assert StartsAt(1, a, 0, 80, 10) && StartsAt(1, b, 0, 80, 10);
    assert IsWhole(7, a, 80, 10) && IsWhole(8, b, 80, 10);
    assert Lasts(7, 1, a, 80, 10) && Lasts(8, 1, b, 80, 10);
    BarExtends(1, 7, a, 0, 80, 10);
    BarExtends(1, 8, b, 0, 80, 10);
  }

  // ---- nothing of the length is lost -----------------------------------------------------------------------

  /** All eighths the bar shows. */
  function Ink(bar: string): nat {
    if bar == "" then 0 else Ink(bar[..|bar| - 1]) + Eighths(bar[|bar| - 1])
  }

  lemma {:induction false} InkOfDrawn(bar: string, start: nat, length: nat)
    requires start % 8 == 0 && Draws(bar, start, length)
    ensures Ink(bar) == Filled8(8 * |bar| - start, length)
  {
    if bar != "" {
      hide Eighths;
      var init, i := bar[..|bar| - 1], |bar| - 1;
      InkOfDrawn(init, start, length);
      assert Eighths(bar[i]) == CellOf(start, length, i);
    }
  }

  /** Between none and all of the length. */
  function Filled8(eighths: int, length: nat): nat {
    if eighths < 0 then 0 else if eighths > length then length else eighths
  }

  /** A span that starts at a cell's edge is drawn to the eighth: the bar shows as many eighths as it is long. */
  lemma InkIsLength(start: nat, length: nat, span: Span, traceStart: int, total: int, width: nat)
    requires total > 0 && width > 0 && start % 8 == 0
    requires StartsAt(start, span, traceStart, total, width) && Lasts(length, start, span, total, width)
    ensures Ink(Fit(RawCells(span, traceStart, total, width), width)) == length
  {
    BarOfSpan(start, length, span, traceStart, total, width);
    CellsAreOf(start, length, span, traceStart, total, width);
    InkOfDrawn(Fit(RawCells(span, traceStart, total, width), width), start, length);
  }
}
