// The bar of a waterfall row, in eighths of a cell: internal/render/waterfall.go, buildBar.
module Waterfall {
  import opened Common
  import opened TraceModel

  const BLOCKS := [' ', '▏', '▎', '▍', '▌', '▋', '▊', '▉', '█']

  /** Go's conversion of a float to int drops the fraction, towards zero. */
  function Trunc(x: real): int { if x >= 0.0 then x.Floor else -((-x).Floor) }

  /** A length on the trace's time line, scaled to the bar's units. */
  function Scale(x: int, total: int, units: nat): int
    requires total > 0
  {
    Trunc(x as real / total as real * units as real)
  }

  /** Where the bar starts and how long it is, in units, clamped into the bar. */
  function ClampOffset(raw: int, units: nat): nat { if raw < 0 then 0 else if raw > units then units else raw }

  function ClampDur(raw: int, units: nat, offset: nat): nat
    requires offset <= units
  {
    var d := if raw < 1 then 1 else raw;
    if offset + d > units then units - offset else d
  }

  /** The cells of a bar with these scaled offset and duration. */
  function Bar(rawOffset: int, rawDur: int, width: nat): (r: string)
    ensures |r| == width
  {
    var offset := ClampOffset(rawOffset, width * 8);
    Fit(RawBar(offset, ClampDur(rawDur, width * 8, offset)), width)
  }

  /** The cells before padding or truncation. */
  function RawBar(offset: nat, dur: nat): string {
    var nudge := if offset % 8 > 0 then [BLOCKS[offset % 8]] else [];
    var full := if offset % 8 > 0 then Max(dur / 8 - 1, 0) else dur / 8;
    Repeat(' ', offset / 8) + nudge + Repeat('█', full) + if dur % 8 > 0 then [BLOCKS[dur % 8]] else []
  }

  /** Padded with blanks, or cut, to the width. */
  function Fit(cells: string, width: nat): (r: string)
    ensures |r| == width
  {
    if |cells| <= width then cells + Repeat(' ', width - |cells|) else cells[..width]
  }

  /** The cells drawn for a span before padding or truncation. */
  function RawCells(span: Span, traceStart: int, total: int, width: nat): string
    requires total > 0
  {
    var offset := ClampOffset(Scale(span.start - traceStart, total, width * 8), width * 8);
    RawBar(offset, ClampDur(Scale(span.duration, total, width * 8), width * 8, offset))
  }

  lemma UnitsOverrun(offset: nat, dur: nat, width: nat)
    requires offset + dur <= width * 8
    ensures |RawBar(offset, dur)| <= width + 1
    ensures |RawBar(offset, dur)| > width <==> offset % 8 > 0 && 0 < dur < 8 && offset / 8 == width - 1
  {
    var lead, lf, full, tf := offset / 8, offset % 8, dur / 8, dur % 8;
    assert offset == 8 * lead + lf && dur == 8 * full + tf;
  }

  lemma LastCell(offset: nat, width: nat)
    ensures offset % 8 > 0 && offset / 8 == width - 1 <==> 8 * (width - 1) < offset < 8 * width
  {
  }

  /** A bar is too long by one cell at most, and exactly when the span starts, scaled, inside the last cell and
      not at its left edge. The span's length does not matter. */
  lemma OverrunExactly(span: Span, traceStart: int, total: int, width: nat)
    requires total > 0 && width > 0
    ensures |RawCells(span, traceStart, total, width)| <= width + 1
    ensures |RawCells(span, traceStart, total, width)| > width <==>
            8 * (width - 1) < Scale(span.start - traceStart, total, width * 8) < 8 * width
  {
    hide Scale, RawBar;
    var raw, units := Scale(span.start - traceStart, total, width * 8), width * 8;
    var offset := ClampOffset(raw, units);
    UnitsOverrun(offset, ClampDur(Scale(span.duration, total, units), units, offset), width);
    LastCell(offset, width);
  }

  /** It happens at every width: any span that starts one eighth of a cell before the end of the trace. */
  lemma OverrunHappens(span: Span, traceStart: int, width: nat)
    requires width > 0 && span.start == traceStart + 8 * width - 1
    ensures |RawCells(span, traceStart, 8 * width, width)| == width + 1
  {
    var units := width * 8;
    var quotient := (units - 1) as real / units as real;
    assert quotient * units as real == (units - 1) as real;
    assert Scale(units - 1, units, units) == units - 1;
    OverrunExactly(span, traceStart, units, width);
  }

  method BuildBar(span: Span, traceStart: int, total: int, width: int) returns (rendered: string)
    ensures |rendered| == Max(width, 0)
    ensures total <= 0 || width <= 0 ==> rendered == Repeat(' ', Max(width, 0))
    ensures total > 0 && width > 0 ==>
              rendered == Fit(RawCells(span, traceStart, total, width), width)
  {
    if total <= 0 || width <= 0 {
      return Repeat(' ', Max(width, 0));
    }
    var totalUnits := width * 8;
    var offsetUnits := Scale(span.start - traceStart, total, totalUnits);
    var durUnits := Scale(span.duration, total, totalUnits);
    rendered := DrawClamped(offsetUnits, durUnits, width);
  }

  method DrawClamped(rawOffset: int, rawDur: int, width: nat) returns (rendered: string)
    ensures rendered == Bar(rawOffset, rawDur, width)
  {
    var offsetUnits, durUnits := Clamp(rawOffset, rawDur, width * 8);
    rendered := DrawCells(offsetUnits, durUnits, width);
  }

  method Clamp(rawOffset: int, rawDur: int, totalUnits: nat) returns (offsetUnits: int, durUnits: int)
    ensures offsetUnits == ClampOffset(rawOffset, totalUnits)
    ensures durUnits == ClampDur(rawDur, totalUnits, ClampOffset(rawOffset, totalUnits))
  {
    offsetUnits, durUnits := rawOffset, rawDur;
    if offsetUnits < 0 { offsetUnits := 0; }
    if offsetUnits > totalUnits { offsetUnits := totalUnits; }
    if durUnits < 1 { durUnits := 1; }
    if offsetUnits + durUnits > totalUnits { durUnits := totalUnits - offsetUnits; }
  }

  method DrawCells(offsetUnits: nat, durUnits: nat, width: nat) returns (rendered: string)
    ensures rendered == Fit(RawBar(offsetUnits, durUnits), width)
  {
    var leadCells, leadFrac := offsetUnits / 8, offsetUnits % 8;
    var fullCells: int := durUnits / 8;
    var tailFrac := durUnits % 8;
    var b := Repeat(' ', leadCells);
    if leadFrac > 0 {
      b := b + [BLOCKS[leadFrac]];
      fullCells := fullCells - 1;
      if fullCells < 0 { fullCells := 0; }
    }
    if fullCells > 0 {
      b := b + Repeat('█', fullCells);
    }
    if tailFrac > 0 {
      b := b + [BLOCKS[tailFrac]];
    }
    assert b == RawBar(offsetUnits, durUnits);
    var pad := width - |b|;
    rendered := b;
    if pad > 0 {
      rendered := rendered + Repeat(' ', pad);
    } else if pad < 0 {
      rendered := rendered[..width];
    }
  }

  ghost predicate Shows(cells: string) { exists i :: 0 <= i < |cells| && cells[i] != ' ' }

  lemma BlocksVisible(k: nat)
    requires 0 < k < 9
    ensures BLOCKS[k] != ' '
  {
  }

  /** The first drawn cell stands at the offset, so it survives the cut; without units nothing is drawn. */
  lemma RawBarShows(offset: nat, dur: nat, width: nat)
    requires offset + dur <= width * 8
    requires dur == 0 ==> offset == width * 8
    ensures Shows(Fit(RawBar(offset, dur), width)) <==> dur > 0
  {
    var cells := Fit(RawBar(offset, dur), width);
    if dur > 0 {
      var at := offset / 8;
      assert at < width;
      if offset % 8 > 0 { BlocksVisible(offset % 8); }
      if dur % 8 > 0 { BlocksVisible(dur % 8); }
      assert RawBar(offset, dur)[at] != ' ';
      assert cells[at] != ' ';
    } else {
      assert RawBar(offset, dur) == Repeat(' ', width);
    }
  }

  lemma QuotientBelowOne(x: real, t: real)
    requires t > 0.0
    ensures x / t < 1.0 <==> x < t
  {
    var q := x / t;
    assert q * t == x;
    MulLess(q, 1.0, t);
    MulLess(1.0, q, t);
  }

  lemma MulLess(a: real, b: real, u: real)
    requires u > 0.0
    ensures a < b ==> a * u < b * u
    ensures a <= b ==> a * u <= b * u
  {
  }

  lemma ScaleBelow(x: int, total: int, units: nat)
    requires total > 0 && units > 0
    ensures Scale(x, total, units) < units <==> x < total
  {
    var r := x as real / total as real;
    QuotientBelowOne(x as real, total as real);
    MulLess(r, 1.0, units as real);
    MulLess(1.0, r, units as real);
    TruncBelow(r * units as real, units);
  }

  lemma TruncBelow(y: real, units: nat)
    requires units > 0
    ensures Trunc(y) < units <==> y < units as real
  {
  }

  lemma ClampedShows(rawOffset: int, rawDur: int, width: nat)
    requires width > 0
    ensures Shows(Bar(rawOffset, rawDur, width)) <==> rawOffset < width * 8
  {
    var offset := ClampOffset(rawOffset, width * 8);
    RawBarShows(offset, ClampDur(rawDur, width * 8, offset), width);
  }

  /** A span shows on its row exactly when it starts before the trace ends, however short it is. */
  lemma SpanShowsExactly(span: Span, traceStart: int, total: int, width: nat)
    requires total > 0 && width > 0
    ensures Shows(Fit(RawCells(span, traceStart, total, width), width)) <==> span.start < traceStart + total
  {
    var units := width * 8;
    ScaleBelow(span.start - traceStart, total, units);
    ClampedShows(Scale(span.start - traceStart, total, units), Scale(span.duration, total, units), width);
  }
}
