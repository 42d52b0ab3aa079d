// Equal-width buckets and their bars: internal/render/histogram.go.
module Histograms {
  import opened Common

  datatype Bucket = Bucket(lowerBound: string, count: nat)

  /** Which of n buckets of the given width, the first starting at min, counts v. */
  function BucketOf(v: real, min: real, width: real, n: nat): int
    requires width > 0.0
  {
    var idx := ((v - min) / width).Floor;
    if idx >= n then n - 1 else idx
  }

  /** Where bucket i starts. */
  function LowerBound(min: real, width: real, i: int): real { min + width * i as real }

  /** Bucket i covers [min + width*i, min + width*(i+1)); the last one has no upper bound. */
  predicate Covers(v: real, min: real, width: real, n: nat, i: int) {
    && LowerBound(min, width, i) <= v
    && (i == n - 1 || v < LowerBound(min, width, i + 1))
  }

  function Covering(min: real, width: real, n: nat, i: int): real -> bool { v => Covers(v, min, width, n, i) }

  lemma CoveringIs(v: real, min: real, width: real, n: nat, i: int)
    ensures Covering(min, width, n, i)(v) <==>
            min + width * i as real <= v && (i == n - 1 || v < min + width * (i + 1) as real)
  {
  }

  lemma DivSplit(x: real, width: real, k: int)
    requires width > 0.0
    ensures k as real <= x / width <==> width * k as real <= x
  {
    var q := x / width;
    assert q * width == x;
    if k as real <= q { MulLe(k as real, q, width); } else { MulLt(q, k as real, width); }
  }

  lemma MulLe(a: real, b: real, w: real)
    requires a <= b && w > 0.0
    ensures w * a <= w * b
  {
  }

  lemma MulLt(a: real, b: real, w: real)
    requires a < b && w > 0.0
    ensures w * a < w * b
  {
  }

  /** A value at or above the minimum is counted in the one bucket whose interval contains it. */
  lemma CountedWhereCovered(v: real, min: real, width: real, n: nat, i: nat)
    requires width > 0.0 && min <= v && i < n
    ensures BucketOf(v, min, width, n) == i <==> Covers(v, min, width, n, i)
    ensures 0 <= BucketOf(v, min, width, n) < n
  {
    DivSplit(v - min, width, i);
    DivSplit(v - min, width, i + 1);
    DivSplit(v - min, width, 0);
    DivSplit(v - min, width, n - 1);
    var q := (v - min) / width;
    assert q.Floor as real <= q < q.Floor as real + 1.0;
  }

  function MinOf(values: seq<real>): real
    requires values != []
  {
    if |values| == 1 then values[0]
    else
      var m := MinOf(values[..|values| - 1]);
      if values[|values| - 1] < m then values[|values| - 1] else m
  }

  function MaxOf(values: seq<real>): real
    requires values != []
  {
    if |values| == 1 then values[0]
    else
      var m := MaxOf(values[..|values| - 1]);
      if values[|values| - 1] > m then values[|values| - 1] else m
  }

  method MinMax(values: seq<real>) returns (min: real, max: real)
    requires values != []
    ensures min == MinOf(values) && max == MaxOf(values)
    ensures min in values && max in values && forall i :: 0 <= i < |values| ==> min <= values[i] <= max
  {
    Bounds(values);
    min, max := values[0], values[0];
    assert values[..1] == [values[0]];
    for i := 1 to |values|
      invariant min == MinOf(values[..i]) && max == MaxOf(values[..i])
    {
      assert values[..i + 1][..i] == values[..i];
      if values[i] < min { min := values[i]; }
      if values[i] > max { max := values[i]; }
    }
    assert values[..|values|] == values;
  }

  lemma {:induction false} Bounds(values: seq<real>)
    requires values != []
    ensures forall i :: 0 <= i < |values| ==> MinOf(values) <= values[i] <= MaxOf(values)
    ensures MinOf(values) <= MaxOf(values) && MinOf(values) in values && MaxOf(values) in values
  {
    if |values| > 1 {
      var init := values[..|values| - 1];
      Bounds(init);
      forall i | 0 <= i < |values| ensures MinOf(values) <= values[i] <= MaxOf(values) {
        if i < |init| { assert init[i] == values[i]; }
      }
    }
  }

  function Total(buckets: seq<Bucket>): nat {
    if buckets == [] then 0 else Total(buckets[..|buckets| - 1]) + buckets[|buckets| - 1].count
  }

  lemma {:induction false} TotalUpdate(buckets: seq<Bucket>, i: nat, b: Bucket)
    requires i < |buckets|
    ensures Total(buckets[i := b]) == Total(buckets) - buckets[i].count + b.count
  {
    var n := |buckets| - 1;
    if i == n {
      assert buckets[i := b][..n] == buckets[..n];
    } else {
      assert buckets[i := b][..n] == buckets[..n][i := b];
      TotalUpdate(buckets[..n], i, b);
    }
  }

  lemma {:induction false} TotalZero(buckets: seq<Bucket>)
    requires forall i :: 0 <= i < |buckets| ==> buckets[i].count == 0
    ensures Total(buckets) == 0
  {
    if buckets != [] { TotalZero(buckets[..|buckets| - 1]); }
  }

  /** The buckets of these values: labelled with their lower bounds, each counting the values its interval covers. */
  ghost predicate Counted(
    buckets: seq<Bucket>, values: seq<real>, min: real, width: real, n: nat, format: real -> string)
  {
    && |buckets| == n
    && forall i :: 0 <= i < n ==>
         buckets[i] == Bucket(format(LowerBound(min, width, i)), |Filter(values, Covering(min, width, n, i))|)
  }

  lemma CountedIs(
    buckets: seq<Bucket>, values: seq<real>, min: real, width: real, n: nat, format: real -> string, i: nat)
    requires Counted(buckets, values, min, width, n, format) && i < n
    ensures buckets[i].lowerBound == format(min + width * i as real)
    ensures buckets[i].count == |Filter(values, Covering(min, width, n, i))|
    ensures forall v :: Covering(min, width, n, i)(v) <==>
              min + width * i as real <= v && (i == n - 1 || v < min + width * (i + 1) as real)
  {
    forall v
      ensures Covering(min, width, n, i)(v) <==>
              min + width * i as real <= v && (i == n - 1 || v < min + width * (i + 1) as real)
    {
      CoveringIs(v, min, width, n, i);
    }
  }

  /** One more value adds one to its bucket's count and leaves the others. */
  lemma CountOne(
    buckets: seq<Bucket>, values: seq<real>, v: real, min: real, width: real, n: nat, format: real -> string)
    requires width > 0.0 && min <= v && Counted(buckets, values, min, width, n, format)
    requires 0 <= BucketOf(v, min, width, n) < n
    ensures var idx := BucketOf(v, min, width, n);
            Counted(buckets[idx := buckets[idx].(count := buckets[idx].count + 1)], values + [v], min, width, n, format)
  {
    forall i | 0 <= i < n
      ensures |Filter(values + [v], Covering(min, width, n, i))|
           == |Filter(values, Covering(min, width, n, i))| + if BucketOf(v, min, width, n) == i then 1 else 0
    {
      CountedWhereCovered(v, min, width, n, i);
      FilterAppend(values, v, Covering(min, width, n, i));
    }
  }

  /** Every value is counted once: the counts add up to the number of values, each bucket holds exactly the
      values its interval covers, and labels are the lower bounds. */
  method MakeBuckets(values: seq<real>, n: int, format: real -> string) returns (out: seq<Bucket>)
    ensures values == [] || n <= 0 ==> out == []
    ensures values != [] && n > 0 ==>
              Total(out) == |values|
    ensures values != [] && n > 0 && MaxOf(values) == MinOf(values) ==>
              out == [Bucket(format(MinOf(values)), |values|)]
    ensures values != [] && n > 0 && MaxOf(values) > MinOf(values) ==>
              var min, width := MinOf(values), (MaxOf(values) - MinOf(values)) / n as real;
              && width > 0.0 && |out| == n
              && Counted(out, values, min, width, n, format)
  {
    if |values| == 0 || n <= 0 { return []; }
    var min, max := MinMax(values);
    Bounds(values);
    if max == min {
      assert [Bucket(format(min), |values|)][..0] == [];
      return [Bucket(format(min), |values|)];
    }
    var width := (max - min) / n as real;
    out := CountBuckets(values, min, width, n, format);
  }

  lemma NothingCounted(buckets: seq<Bucket>, min: real, width: real, format: real -> string)
    requires forall i :: 0 <= i < |buckets| ==> buckets[i] == Bucket(format(LowerBound(min, width, i)), 0)
    ensures Counted(buckets, [], min, width, |buckets|, format)
  {
  }

  method CountBuckets(values: seq<real>, min: real, width: real, n: nat, format: real -> string)
    returns (out: seq<Bucket>)
    requires width > 0.0 && n > 0 && forall i :: 0 <= i < |values| ==> min <= values[i]
    ensures Total(out) == |values|
    ensures Counted(out, values, min, width, n, format)
  {
    var cells := new Bucket[n](_ => Bucket("", 0));
    forall i | 0 <= i < n { cells[i] := Bucket(format(LowerBound(min, width, i)), 0); }
    TotalZero(cells[..]);
    NothingCounted(cells[..], min, width, format);
    assert values[..0] == [];
    hide Counted, Total;
    for j := 0 to |values|
      invariant Total(cells[..]) == j
      invariant Counted(cells[..], values[..j], min, width, n, format)
    {
      CountValue(cells, values[j], min, width, values[..j], format);
      assert values[..j + 1] == values[..j] + [values[j]];
    }
    assert values[..|values|] == values;
    out := cells[..];
  }

  method CountValue(
    cells: array<Bucket>, v: real, min: real, width: real, ghost seen: seq<real>, ghost format: real -> string)
    requires width > 0.0 && cells.Length > 0 && min <= v
    requires Counted(cells[..], seen, min, width, cells.Length, format)
    modifies cells
    ensures Total(cells[..]) == Total(old(cells[..])) + 1
    ensures Counted(cells[..], seen + [v], min, width, cells.Length, format)
  {
    var idx := ((v - min) / width).Floor;
    if idx >= cells.Length { idx := cells.Length - 1; }
    assert idx == BucketOf(v, min, width, cells.Length);
    CountedWhereCovered(v, min, width, cells.Length, 0);
    CountOne(cells[..], seen, v, min, width, cells.Length, format);
    TotalUpdate(cells[..], idx, cells[idx].(count := cells[idx].count + 1));
    cells[idx] := cells[idx].(count := cells[idx].count + 1);
    assert cells[..] == old(cells[..])[idx := cells[idx]];
  }

  // ---- bars ------------------------------------------------------------------------------------------------

  /** A count's share of the width, before rounding down. */
  function Share(count: nat, maxCount: nat, maxWidth: nat): real
    requires maxCount > 0
  {
    count as real / maxCount as real * maxWidth as real
  }

  function Round(count: nat, share: real): int { if count > 0 && share.Floor < 1 then 1 else share.Floor }

  function BarWidth(count: nat, maxCount: nat, maxWidth: nat): int
    requires maxCount > 0
  {
    Round(count, Share(count, maxCount, maxWidth))
  }

  function MaxCount(buckets: seq<Bucket>): nat {
    if buckets == [] then 0 else Max(MaxCount(buckets[..|buckets| - 1]), buckets[|buckets| - 1].count)
  }

  lemma {:induction false} MaxCountBounds(buckets: seq<Bucket>, i: nat)
    requires i < |buckets|
    ensures buckets[i].count <= MaxCount(buckets)
  {
    if i < |buckets| - 1 { MaxCountBounds(buckets[..|buckets| - 1], i); }
  }

  lemma ShareMonotone(a: nat, b: nat, maxCount: nat, maxWidth: nat)
    requires a <= b && maxCount > 0
    ensures Share(a, maxCount, maxWidth) <= Share(b, maxCount, maxWidth)
  {
    QuotientMonotone(a as real, b as real, maxCount as real);
    ScaleUp(a as real / maxCount as real, b as real / maxCount as real, maxWidth as real);
  }

  lemma QuotientMonotone(x: real, y: real, w: real)
    requires x <= y && w > 0.0
    ensures x / w <= y / w
  {
  }

  lemma ScaleUp(x: real, y: real, w: real)
    requires x <= y && w >= 0.0
    ensures x * w <= y * w
  {
  }

  lemma ShareEnds(maxCount: nat, maxWidth: nat)
    requires maxCount > 0
    ensures Share(maxCount, maxCount, maxWidth) == maxWidth as real
    ensures Share(0, maxCount, maxWidth) == 0.0
  {
    assert maxCount as real / maxCount as real == 1.0;
  }

  /** Bars never exceed the width, the largest count fills it, more is never shorter, and nonzero shows. */
  lemma BarWidths(a: nat, b: nat, maxCount: nat, maxWidth: nat)
    requires a <= b <= maxCount && maxCount > 0 && maxWidth > 0
    ensures 0 <= BarWidth(a, maxCount, maxWidth) <= BarWidth(b, maxCount, maxWidth) <= maxWidth
    ensures BarWidth(maxCount, maxCount, maxWidth) == maxWidth
    ensures a > 0 ==> BarWidth(a, maxCount, maxWidth) >= 1
  {
    ShareEnds(maxCount, maxWidth);
    ShareMonotone(0, a, maxCount, maxWidth);
    ShareMonotone(a, b, maxCount, maxWidth);
    ShareMonotone(b, maxCount, maxCount, maxWidth);
    Rounded(a, b, Share(a, maxCount, maxWidth), Share(b, maxCount, maxWidth), maxWidth);
  }

  /** A bar is its count's share of the width, rounded down, or one cell when that would be none of it. */
  lemma BarProportional(count: nat, maxCount: nat, maxWidth: nat)
    requires count <= maxCount && maxCount > 0
    ensures var bw := BarWidth(count, maxCount, maxWidth);
            || bw * maxCount <= count * maxWidth < (bw + 1) * maxCount
            || (bw == 1 && 0 < count && count * maxWidth < maxCount)
  {
    var share := Share(count, maxCount, maxWidth);
    ShareFloor(share.Floor, share, maxCount, count * maxWidth) by { ShareTimes(count, maxCount, maxWidth); }
    hide Share;
  }

  lemma ShareFloor(whole: int, share: real, maxCount: nat, product: nat)
    requires whole as real <= share < whole as real + 1.0 && maxCount > 0
    requires share * maxCount as real == product as real
    ensures whole * maxCount <= product < (whole + 1) * maxCount
  {
    ScaleUp(whole as real, share, maxCount as real);
    ScaleUpStrictly(share, (whole + 1) as real, maxCount as real);
    IntTimes(whole, maxCount);
    IntTimes(whole + 1, maxCount);
  }

  lemma IntTimes(a: int, b: nat)
    ensures (a * b) as real == a as real * b as real
  {
  }

  lemma ShareTimes(count: nat, maxCount: nat, maxWidth: nat)
    requires maxCount > 0
    ensures Share(count, maxCount, maxWidth) * maxCount as real == (count * maxWidth) as real
  {
    var q := count as real / maxCount as real;
    assert q * maxCount as real == count as real;
    assert q * maxWidth as real * maxCount as real == q * maxCount as real * maxWidth as real;
    assert count as real * maxWidth as real == (count * maxWidth) as real;
  }

  lemma ScaleUpStrictly(x: real, y: real, n: real)
    requires x < y && n > 0.0
    ensures x * n < y * n
  {
  }

  lemma Rounded(a: nat, b: nat, x: real, y: real, w: nat)
    requires a <= b && 0.0 <= x <= y <= w as real && w > 0
    ensures 0 <= Round(a, x) <= Round(b, y) <= w
  {
  }

  // ---- the rows as text ------------------------------------------------------------------------------------

  /** A count in decimal digits. */
  function Decimal(n: nat): (s: string)
    ensures s != []
  {
    if n < 10 then [DIGITS[n]] else Decimal(n / 10) + [DIGITS[n % 10]]
  }

  /** No zeros in front. */
  lemma {:induction false} DecimalStarts(n: nat)
    ensures n > 0 ==> Decimal(n)[0] != '0'
    ensures forall i :: 0 <= i < |Decimal(n)| ==> '0' <= Decimal(n)[i] <= '9'
    decreases n
  {
    if n >= 10 { DecimalStarts(n / 10); }
  }

  const DIGITS: string := "0123456789"

  function DigitValue(c: char): nat { if '0' <= c <= '9' then (c - '0') as nat else 0 }

  function ReadDecimal(s: string): nat {
    if s == [] then 0 else 10 * ReadDecimal(s[..|s| - 1]) + DigitValue(s[|s| - 1])
  }

  lemma {:induction false} DecimalReadsBack(n: nat)
    ensures ReadDecimal(Decimal(n)) == n
  {
    if n < 10 {
      assert [DIGITS[n]][..0] == [];
      DigitReadsBack(n);
    } else {
      DecimalReadsBack(n / 10);
      DigitReadsBack(n % 10);
      assert Decimal(n)[..|Decimal(n)| - 1] == Decimal(n / 10);
    }
  }

  lemma DigitReadsBack(d: nat)
    requires d < 10
    ensures DigitValue(DIGITS[d]) == d && ReadDecimal([DIGITS[d]]) == d
  {
    assert [DIGITS[d]][..0] == [];
  }

  /** A label padded on the right. */
  function Pad(text: string, width: nat): string {
    if |text| < width then text + Repeat(' ', width - |text|) else text
  }

  function MaxLabel(buckets: seq<Bucket>): nat {
    if buckets == [] then 0 else Max(MaxLabel(buckets[..|buckets| - 1]), |buckets[|buckets| - 1].lowerBound|)
  }

  lemma {:induction false} MaxLabelBounds(buckets: seq<Bucket>, i: nat)
    requires i < |buckets|
    ensures |buckets[i].lowerBound| <= MaxLabel(buckets)
  {
    if i < |buckets| - 1 { MaxLabelBounds(buckets[..|buckets| - 1], i); }
  }

  /** Label, bar, blanks up to the width, count. */
  function RowText(b: Bucket, maxLabel: nat, bar: nat, maxWidth: nat): string
    requires bar <= maxWidth
  {
    Pad(b.lowerBound, maxLabel) + "  " + Repeat('█', bar) + Repeat(' ', maxWidth - bar) + "  " + Decimal(b.count)
  }

  /** The line starts with the bucket's label, has its bar from column bars on, its count after the last column a bar
      can have, and blanks everywhere else. */
  predicate Shows(line: string, b: Bucket, bar: nat, bars: nat, maxWidth: nat) {
    && b.lowerBound <= line && |line| > bars + maxWidth + 2
    && (forall j :: |b.lowerBound| <= j < bars + maxWidth + 2 ==>
          line[j] == if bars <= j < bars + bar then '█' else ' ')
    && ReadDecimal(line[bars + maxWidth + 2..]) == b.count
  }

  lemma RowColumns(b: Bucket, maxLabel: nat, bar: nat, maxWidth: nat)
    requires bar <= maxWidth && |b.lowerBound| <= maxLabel
    ensures Shows(RowText(b, maxLabel, bar, maxWidth), b, bar, maxLabel + 2, maxWidth)
  {
    var row := RowText(b, maxLabel, bar, maxWidth);
    DecimalReadsBack(b.count);
    assert row[maxLabel + maxWidth + 4..] == Decimal(b.count);
  }

  /** The row of one bucket in the histogram of all. */
  function RowOf(buckets: seq<Bucket>, i: nat, maxLabel: nat, maxCount: nat, maxWidth: nat): string
    requires i < |buckets| && maxCount > 0 && maxWidth > 0 && buckets[i].count <= maxCount
  {
    BarWidths(buckets[i].count, buckets[i].count, maxCount, maxWidth);
    RowText(buckets[i], maxLabel, BarWidth(buckets[i].count, maxCount, maxWidth), maxWidth)
  }

  /** The rows' text, separated by newlines. */
  ghost function TextOf(buckets: seq<Bucket>, n: nat, maxLabel: nat, maxCount: nat, maxWidth: nat): string
    requires n <= |buckets| && maxCount > 0 && maxWidth > 0
    requires forall i :: 0 <= i < |buckets| ==> buckets[i].count <= maxCount
  {
    if n == 0 then ""
    else
      TextOf(buckets, n - 1, maxLabel, maxCount, maxWidth) + RowOf(buckets, n - 1, maxLabel, maxCount, maxWidth)
      + if n < |buckets| then "\n" else ""
  }

  // ---- the columns of the text -------------------------------------------------------------------------

  /** The lines of a text. */
  function Lines(s: string): (r: seq<string>)
    ensures r != []
  {
    if s == "" then [""]
    else
      var init, last := Lines(s[..|s| - 1]), s[|s| - 1];
      if last == '\n' then init + [""] else init[..|init| - 1] + [init[|init| - 1] + [last]]
  }

  lemma LinesPush(s: string, c: char)
    ensures Lines(s + [c]) ==
            if c == '\n' then Lines(s) + [""] else Lines(s)[..|Lines(s)| - 1] + [Lines(s)[|Lines(s)| - 1] + [c]]
  {
    assert (s + [c])[..|s|] == s;
  }

  lemma {:induction false} LinesExtend(s: string, row: string)
    requires '\n' !in row
    ensures Lines(s + row) == Lines(s)[..|Lines(s)| - 1] + [Lines(s)[|Lines(s)| - 1] + row]
  {
    hide Lines;
    var last := Lines(s)[|Lines(s)| - 1];
    if row == "" {
      assert s + row == s && last + row == last;
    } else {
      var init, c := row[..|row| - 1], row[|row| - 1];
      LinesExtend(s, init);
      LinesPush(s + init, c);
      assert s + row == s + init + [c] && last + row == last + init + [c];
    }
  }

  lemma {:induction false} DecimalIsOneLine(n: nat)
    ensures '\n' !in Decimal(n)
    decreases n
  {
    assert forall d :: 0 <= d < 10 ==> DIGITS[d] != '\n';
    if n >= 10 { DecimalIsOneLine(n / 10); }
  }

  /** A label without line breaks makes a row without them. */
  lemma RowIsOneLine(buckets: seq<Bucket>, i: nat, maxLabel: nat, maxCount: nat, maxWidth: nat)
    requires i < |buckets| && maxCount > 0 && maxWidth > 0 && buckets[i].count <= maxCount
    requires '\n' !in buckets[i].lowerBound
    ensures '\n' !in RowOf(buckets, i, maxLabel, maxCount, maxWidth)
  {
    hide BarWidth, Decimal;
    DecimalIsOneLine(buckets[i].count);
  }

  /** The first n rows. */
  function Rows(buckets: seq<Bucket>, n: nat, maxLabel: nat, maxCount: nat, maxWidth: nat): (r: seq<string>)
    requires n <= |buckets| && maxCount > 0 && maxWidth > 0
    requires forall i :: 0 <= i < |buckets| ==> buckets[i].count <= maxCount
    ensures |r| == n && forall i :: 0 <= i < n ==> r[i] == RowOf(buckets, i, maxLabel, maxCount, maxWidth)
  {
    hide RowOf;
    if n == 0 then []
    else Rows(buckets, n - 1, maxLabel, maxCount, maxWidth) + [RowOf(buckets, n - 1, maxLabel, maxCount, maxWidth)]
  }

  lemma {:induction false} TextLines(buckets: seq<Bucket>, n: nat, maxLabel: nat, maxCount: nat, maxWidth: nat)
    requires n <= |buckets| && buckets != [] && maxCount > 0 && maxWidth > 0
    requires forall i :: 0 <= i < |buckets| ==> buckets[i].count <= maxCount && '\n' !in buckets[i].lowerBound
    ensures Lines(TextOf(buckets, n, maxLabel, maxCount, maxWidth))
         == Rows(buckets, n, maxLabel, maxCount, maxWidth) + if n < |buckets| then [""] else []
  {
    hide TextOf, Rows, RowOf, Lines;
    if n == 0 {
      NoText(buckets, maxLabel, maxCount, maxWidth);
    } else {
      TextLines(buckets, n - 1, maxLabel, maxCount, maxWidth);
      RowIsOneLine(buckets, n - 1, maxLabel, maxCount, maxWidth);
      TextStep(buckets, n, maxLabel, maxCount, maxWidth);
      LinesRow(TextOf(buckets, n - 1, maxLabel, maxCount, maxWidth), Rows(buckets, n - 1, maxLabel, maxCount, maxWidth),
               RowOf(buckets, n - 1, maxLabel, maxCount, maxWidth), if n < |buckets| then "\n" else "");
    }
  }

  lemma NoText(buckets: seq<Bucket>, maxLabel: nat, maxCount: nat, maxWidth: nat)
    requires maxCount > 0 && maxWidth > 0 && forall i :: 0 <= i < |buckets| ==> buckets[i].count <= maxCount
    ensures Lines(TextOf(buckets, 0, maxLabel, maxCount, maxWidth)) == [""]
    ensures Rows(buckets, 0, maxLabel, maxCount, maxWidth) == []
  {
  }

  lemma TextStep(buckets: seq<Bucket>, n: nat, maxLabel: nat, maxCount: nat, maxWidth: nat)
    requires 0 < n <= |buckets| && maxCount > 0 && maxWidth > 0
    requires forall i :: 0 <= i < |buckets| ==> buckets[i].count <= maxCount
    ensures TextOf(buckets, n, maxLabel, maxCount, maxWidth) ==
            TextOf(buckets, n - 1, maxLabel, maxCount, maxWidth) + RowOf(buckets, n - 1, maxLabel, maxCount, maxWidth)
            + if n < |buckets| then "\n" else ""
    ensures Rows(buckets, n, maxLabel, maxCount, maxWidth) ==
            Rows(buckets, n - 1, maxLabel, maxCount, maxWidth) + [RowOf(buckets, n - 1, maxLabel, maxCount, maxWidth)]
  {
    hide RowOf;
  }

  /** A row put on the empty last line, and the line break after it, if there is one. */
  lemma LinesRow(before: string, rows: seq<string>, row: string, stop: string)
    requires '\n' !in row && Lines(before) == rows + [""] && (stop == "\n" || stop == "")
    ensures Lines(before + row + stop) == rows + [row] + if stop == "" then [] else [""]
  {
    hide Lines;
    LinesExtend(before, row);
    assert "" + row == row;
    if stop == "" {
      assert before + row + stop == before + row;
    } else {
      LinesPush(before + row, '\n');
    }
  }

  lemma RowShows(buckets: seq<Bucket>, i: nat, maxLabel: nat, maxCount: nat, maxWidth: nat)
    requires i < |buckets| && maxCount > 0 && maxWidth > 0 && buckets[i].count <= maxCount
    requires |buckets[i].lowerBound| <= maxLabel
    ensures BarWidth(buckets[i].count, maxCount, maxWidth) >= 0
    ensures Shows(RowOf(buckets, i, maxLabel, maxCount, maxWidth), buckets[i],
                  BarWidth(buckets[i].count, maxCount, maxWidth), maxLabel + 2, maxWidth)
  {
    var b := buckets[i];
    BarWidths(b.count, b.count, maxCount, maxWidth);
    RowColumns(b, maxLabel, BarWidth(b.count, maxCount, maxWidth), maxWidth);
    hide RowText, BarWidth;
  }

  /** One line per bucket, and in all of them the bar starts in one column and the count in another: the line shows its
      label, as many bar cells as the bucket's bar is wide, and its count. Labels are single lines. */
  lemma HistogramColumns(buckets: seq<Bucket>, maxWidth: nat, i: nat)
    requires i < |buckets| && maxWidth > 0
    requires forall j :: 0 <= j < |buckets| ==> '\n' !in buckets[j].lowerBound
    ensures forall j :: 0 <= j < |buckets| ==> buckets[j].count <= Max(MaxCount(buckets), 1)
    ensures var maxCount := Max(MaxCount(buckets), 1);
            var lines := Lines(TextOf(buckets, |buckets|, MaxLabel(buckets), maxCount, maxWidth));
            && |lines| == |buckets|
            && Shows(lines[i], buckets[i], BarWidth(buckets[i].count, maxCount, maxWidth), MaxLabel(buckets) + 2,
                     maxWidth)
  {
    hide Lines, TextOf, RowOf, Shows, BarWidth, MaxLabel, MaxCount;
    var maxCount := Max(MaxCount(buckets), 1);
    forall j | 0 <= j < |buckets| ensures buckets[j].count <= MaxCount(buckets) { MaxCountBounds(buckets, j); }
    MaxLabelBounds(buckets, i);
    RowShows(buckets, i, MaxLabel(buckets), maxCount, maxWidth);
    TextLines(buckets, |buckets|, MaxLabel(buckets), maxCount, maxWidth);
  }

  method LargestCount(buckets: seq<Bucket>) returns (maxCount: nat, maxLabel: nat)
    ensures maxCount == MaxCount(buckets) && maxLabel == MaxLabel(buckets)
  {
    maxCount, maxLabel := 0, 0;
    for i := 0 to |buckets|
      invariant maxCount == MaxCount(buckets[..i]) && maxLabel == MaxLabel(buckets[..i])
    {
      assert buckets[..i + 1][..i] == buckets[..i];
      if buckets[i].count > maxCount { maxCount := buckets[i].count; }
      var w := |buckets[i].lowerBound|;
      if w > maxLabel { maxLabel := w; }
    }
    assert buckets[..|buckets|] == buckets;
  }

  method BarCells(count: nat, maxCount: nat, maxWidth: nat) returns (bw: int)
    requires count <= maxCount && maxCount > 0 && maxWidth > 0
    ensures bw == BarWidth(count, maxCount, maxWidth) && 0 <= bw <= maxWidth
  {
    BarWidths(count, count, maxCount, maxWidth);
    bw := (count as real / maxCount as real * maxWidth as real).Floor;
    if count > 0 && bw < 1 { bw := 1; }
  }

  method DrawRow(buckets: seq<Bucket>, i: nat, maxLabel: nat, maxCount: nat, maxWidth: nat) returns (row: string)
    requires i < |buckets| && maxCount > 0 && maxWidth > 0 && buckets[i].count <= maxCount
    ensures row == RowOf(buckets, i, maxLabel, maxCount, maxWidth)
  {
    var b := buckets[i];
    var bw := BarCells(b.count, maxCount, maxWidth);
    row := RowText(b, maxLabel, bw, maxWidth);
  }

  method DrawRows(buckets: seq<Bucket>, maxLabel: nat, maxCount: nat, maxWidth: nat) returns (text: string)
    requires maxCount > 0 && maxWidth > 0 && forall i :: 0 <= i < |buckets| ==> buckets[i].count <= maxCount
    ensures text == TextOf(buckets, |buckets|, maxLabel, maxCount, maxWidth)
  {
    hide RowOf;
    text := "";
    for i := 0 to |buckets|
      invariant text == TextOf(buckets, i, maxLabel, maxCount, maxWidth)
    {
      var row := DrawRow(buckets, i, maxLabel, maxCount, maxWidth);
      text := text + row + if i < |buckets| - 1 then "\n" else "";
    }
  }

  /** One line per bucket, bars scaled to the largest count. */
  method Histogram(buckets: seq<Bucket>, maxWidth: int) returns (text: string)
    ensures buckets == [] || maxWidth <= 0 ==> text == ""
    ensures forall i :: 0 <= i < |buckets| ==> buckets[i].count <= Max(MaxCount(buckets), 1)
    ensures buckets != [] && maxWidth > 0 ==>
              text == TextOf(buckets, |buckets|, MaxLabel(buckets), Max(MaxCount(buckets), 1), maxWidth)
  {
    hide TextOf, MaxCount, MaxLabel;
    forall i | 0 <= i < |buckets| ensures buckets[i].count <= MaxCount(buckets) { MaxCountBounds(buckets, i); }
    if |buckets| == 0 || maxWidth <= 0 { return ""; }
    var maxCount, maxLabel := LargestCount(buckets);
    if maxCount == 0 { maxCount := 1; }
    text := DrawRows(buckets, maxLabel, maxCount, maxWidth);
  }
}
