/** The second half of `ElPris::draw`: the price scale, where every bar,
    label and line of the chart goes, and in what grey. Canvas calls are not
    made; the layout is returned as a `Plan` of drawing primitives, which the
    source issues in the order of the `Plan` fields. */
module ChartLayout {
  import opened Basics
  import opened ApiTime
  import opened Buckets
  import opened PriceWindow
  import opened PriceSeries

  /** The frame's distance from the canvas edges, in pixels. */
  const BorderL := 40
  const BorderR := 110
  const BorderT := 60
  const BorderB := 50

  /** Distance of the labels from the frame. */
  const LabelGap := 10

  /** Line widths of the bars and of every other line. */
  const BarWidth := 12
  const LineWidth := 2

  /** Grey levels on the panel's 0 (white) to 15 (black) scale. */
  const Black := 15
  const LabelGrey := 10
  const BarGrey := 7
  const NowLineGrey := 5

  function GraphW(width: int): int
  {
    width - BorderL - BorderR
  }

  function GraphH(height: int): int
  {
    height - BorderT - BorderB
  }

  // ---------------------------------------------------------------------
  // The price scale

  /** The running minimum of the prices, started at 0 so that 0 is always
      on the scale. */
  function MinPrice(ps: seq<Price>): (lo: int)
    ensures lo <= 0
    ensures forall i :: 0 <= i < |ps| ==> lo <= ps[i].price
    ensures lo == 0 || exists i :: 0 <= i < |ps| && ps[i].price == lo
  {
    if |ps| == 0 then 0 else Min(MinPrice(ps[..|ps| - 1]), ps[|ps| - 1].price)
  }

  /** The running maximum of the prices, started at 0. */
  function MaxPrice(ps: seq<Price>): (hi: int)
    ensures hi >= 0
    ensures forall i :: 0 <= i < |ps| ==> ps[i].price <= hi
    ensures hi == 0 || exists i :: 0 <= i < |ps| && ps[i].price == hi
  {
    if |ps| == 0 then 0 else Max(MaxPrice(ps[..|ps| - 1]), ps[|ps| - 1].price)
  }

  /** The scale degenerates to a single value exactly when every price is
      0; the source then divides 0 by 0. */
  lemma {:induction false} FlatScaleIffAllZero(ps: seq<Price>)
    ensures MinPrice(ps) == MaxPrice(ps) <==> forall i :: 0 <= i < |ps| ==> ps[i].price == 0
  {
    if MinPrice(ps) != MaxPrice(ps) {
      if MinPrice(ps) != 0 {
        var i :| 0 <= i < |ps| && ps[i].price == MinPrice(ps);
      } else {
        var i :| 0 <= i < |ps| && ps[i].price == MaxPrice(ps);
      }
    }
  }

  // ---------------------------------------------------------------------
  // Coordinates

  /** The x coordinate of entry `i` of `n`: the frame's width split into
      `n + 1` equal steps, with C++ integer division. */
  function BarX(i: int, n: int, width: int): int
    requires n >= 0
  {
    BorderL + CDiv((i + 1) * GraphW(width), n + 1)
  }

  /** The y coordinate of price `p` on the scale `lo`..`hi`: the bottom of
      the frame minus the price's share of the frame's height. The source
      computes in `float` and truncates on assignment to `int`; the model
      truncates the exact quotient toward zero. */
  function PriceY(p: int, lo: int, hi: int, height: int): int
    requires lo < hi
  {
    CDiv((BorderT + GraphH(height)) * (hi - lo) - GraphH(height) * (p - lo), hi - lo)
  }

  lemma MulLeft(a: int, b: int, c: int)
    requires a >= 0 && b <= c
    ensures a * b <= a * c
  {
    MulNonNegative(c - b, a + 1);
    assert (c - b) * (a + 1) - (c - b) == a * c - a * b;
  }

  /** A price on the scale lands inside the frame, between its top and its
      bottom edge. */
  lemma PriceYInside(p: int, lo: int, hi: int, height: int)
    requires lo <= p <= hi && lo < hi && GraphH(height) >= 0
    ensures BorderT <= PriceY(p, lo, hi, height) <= height - BorderB
  {
    var g, d := GraphH(height), hi - lo;
    var a := (BorderT + g) * d - g * (p - lo);
    MulLeft(g, 0, hi - p);
    MulLeft(g, hi - p, d);
    assert a == BorderT * d + g * (hi - p);
    MulNonNegative(d, BorderT);
    DivBetween(a, d, BorderT, BorderT + g);
  }

  /** A higher price is drawn higher up (at a smaller or equal y). */
  lemma PriceYMonotone(p: int, q: int, lo: int, hi: int, height: int)
    requires lo <= p <= q <= hi && lo < hi && GraphH(height) >= 0
    ensures PriceY(q, lo, hi, height) <= PriceY(p, lo, hi, height)
  {
    var g, d := GraphH(height), hi - lo;
    MulLeft(g, p - lo, q - lo);
    PriceYInside(p, lo, hi, height);
    PriceYInside(q, lo, hi, height);
    MulLeft(g, 0, hi - q);
    assert (BorderT + g) * d - g * (q - lo) == BorderT * d + g * (hi - q);
    MulNonNegative(d, BorderT);
    DivMonotone((BorderT + g) * d - g * (q - lo), (BorderT + g) * d - g * (p - lo), d);
  }

  /** The top of the scale is the top edge of the frame and the bottom of
      the scale its bottom edge. */
  lemma PriceYEndpoints(lo: int, hi: int, height: int)
    requires lo < hi && GraphH(height) >= 0
    ensures PriceY(hi, lo, hi, height) == BorderT
    ensures PriceY(lo, lo, hi, height) == height - BorderB
  {
    var g, d := GraphH(height), hi - lo;
    assert (BorderT + g) * d - g * (hi - lo) == BorderT * d;
    MulNonNegative(d, BorderT);
    DivUnique(BorderT * d, d, BorderT, 0);
    MulNonNegative(d, BorderT + g);
    DivUnique((BorderT + g) * d, d, BorderT + g, 0);
  }

  /** With at least one pixel per step, later entries lie strictly to the
      right. */
  lemma BarXIncreasing(i: int, j: int, n: int, width: int)
    requires 0 <= i < j && n >= 0 && GraphW(width) >= n + 1
    ensures BarX(i, n, width) < BarX(j, n, width)
  {
    var g := GraphW(width);
    MulLeft(g, i + 1, j);
    assert g * j + g == (j + 1) * g;
    MulNonNegative(i + 1, g);
    DivStep((i + 1) * g, (j + 1) * g, n + 1);
  }

  /** With at least one pixel per step, every entry lies strictly between
      the frame's left and right edges. */
  lemma BarXInside(i: int, n: int, width: int)
    requires 0 <= i < n && GraphW(width) >= n + 1
    ensures BorderL < BarX(i, n, width) < width - BorderR
  {
    var g := GraphW(width);
    MulLeft(g, 1, i + 1);
    MulLeft(g, i + 1, n);
    assert g * n + g == (g - 1) * (n + 1) + (n + 1);
    MulNonNegative(i + 1, g);
    DivBetween((i + 1) * g, n + 1, 1, g - 1);
  }

  // ---------------------------------------------------------------------
  // Hour labels

  /** An hour label is printed under the current hour, and under every hour
      divisible by 6 that is more than two entries away from it. For the
      non-negative hours of a timestamp C++'s `%` agrees with Dafny's. */
  predicate ShowsHourLabel(p: Price, i: int, nowIndex: int)
  {
    (p.time.hour % 6 == 0 && Abs(i - nowIndex) > 2) || i == nowIndex
  }

  /** The entries from `i` on that get an hour label, in increasing order. */
  function LabelledFrom(ps: seq<Price>, nowIndex: int, i: nat): (ks: seq<int>)
    requires i <= |ps|
    ensures forall k :: 0 <= k < |ks| ==> i <= ks[k] < |ps| && ShowsHourLabel(ps[ks[k]], ks[k], nowIndex)
    ensures forall j :: i <= j < |ps| && ShowsHourLabel(ps[j], j, nowIndex) ==> j in ks
    ensures forall k, l :: 0 <= k < l < |ks| ==> ks[k] < ks[l]
    decreases |ps| - i
  {
    if i == |ps| then []
    else (if ShowsHourLabel(ps[i], i, nowIndex) then [i] else []) + LabelledFrom(ps, nowIndex, i + 1)
  }

  /** The labels never crowd the current hour's: every labelled entry other
      than the current one is at least three entries away from it, and the
      current entry is always labelled. */
  lemma LabelsKeepClearOfNow(ps: seq<Price>, nowIndex: int)
    requires 0 <= nowIndex < |ps|
    ensures nowIndex in LabelledFrom(ps, nowIndex, 0)
    ensures forall k :: 0 <= k < |LabelledFrom(ps, nowIndex, 0)| ==>
              var j := LabelledFrom(ps, nowIndex, 0)[k];
              j == nowIndex || (Abs(j - nowIndex) > 2 && ps[j].time.hour % 6 == 0)
  {
  }

  // ---------------------------------------------------------------------
  // The plan

  /** Text the chart prints: an hour, or a price printed with three
      decimals (the model's price unit is a thousandth). */
  datatype Label = Hour(hour: int) | Amount(thousandths: int)

  /** A `drawLine(x0, y0, x1, y1, width, colour)` or a `drawString` after
      `setTextColor(colour)`; `x`, `y` are the string's top left corner. */
  datatype Primitive =
    | Line(x0: int, y0: int, x1: int, y1: int, thickness: int, colour: int)
    | Text(content: Label, x: int, y: int, colour: int)

  /** Why nothing (sensible) is drawn: a bucket the chart needs is absent
      (the early return), no entry is the current hour (the source reads
      `allPrices[-1]`), or every price is 0 (the source divides 0 by 0). */
  datatype DrawError = PricesMissing | NoCurrentHour | FlatScale

  /** The chart: the scale, the current price's height, and the primitives
      in drawing order. */
  datatype Plan = Plan(
    lo: int, hi: int, yNow: int,
    hourLabels: seq<Primitive>,
    maxLabel: Option<Primitive>, minLabel: Option<Primitive>,
    nowLine: Primitive, nowLabel: Primitive,
    bars: seq<Primitive>,
    frame: seq<Primitive>)

  function HourLabel(ps: seq<Price>, j: int, nowIndex: int, width: int, height: int, textWidth: int -> int): Primitive
    requires 0 <= j < |ps|
  {
    Text(Hour(ps[j].time.hour),
         BarX(j, |ps|, width) - CDiv(textWidth(ps[j].time.hour), 2),
         height - BorderB + LabelGap,
         if j == nowIndex then Black else LabelGrey)
  }

  function HourLabels(ps: seq<Price>, ks: seq<int>, nowIndex: int, width: int, height: int, textWidth: int -> int): (ls: seq<Primitive>)
    requires forall k :: 0 <= k < |ks| ==> 0 <= ks[k] < |ps|
    ensures |ls| == |ks|
    ensures forall k :: 0 <= k < |ks| ==> ls[k] == HourLabel(ps, ks[k], nowIndex, width, height, textWidth)
  {
    if |ks| == 0 then []
    else [HourLabel(ps, ks[0], nowIndex, width, height, textWidth)] + HourLabels(ps, ks[1..], nowIndex, width, height, textWidth)
  }

  function Bar(ps: seq<Price>, i: int, nowIndex: int, lo: int, hi: int, width: int, height: int): Primitive
    requires 0 <= i < |ps| && lo < hi
  {
    Line(BarX(i, |ps|, width), PriceY(ps[i].price, lo, hi, height),
         BarX(i, |ps|, width), height - BorderB,
         BarWidth, if i == nowIndex then Black else BarGrey)
  }

  function BarsFrom(ps: seq<Price>, i: nat, nowIndex: int, lo: int, hi: int, width: int, height: int): (bs: seq<Primitive>)
    requires i <= |ps| && lo < hi
    ensures |bs| == |ps| - i
    ensures forall k :: 0 <= k < |bs| ==> bs[k] == Bar(ps, i + k, nowIndex, lo, hi, width, height)
    decreases |ps| - i
  {
    if i == |ps| then []
    else [Bar(ps, i, nowIndex, lo, hi, width, height)] + BarsFrom(ps, i + 1, nowIndex, lo, hi, width, height)
  }

  /** The four sides of the frame: top, bottom, left, right. */
  function Frame(width: int, height: int): seq<Primitive>
  {
    [Line(BorderL, BorderT, width - BorderR, BorderT, LineWidth, Black),
     Line(BorderL, height - BorderB, width - BorderR, height - BorderB, LineWidth, Black),
     Line(BorderL, BorderT, BorderL, height - BorderB, LineWidth, Black),
     Line(width - BorderR, BorderT, width - BorderR, height - BorderB, LineWidth, Black)]
  }

  /** The top of a string of height `fontHeight` centred on `centre`. */
  function TextTop(centre: int, fontHeight: int): int
  {
    centre - CDiv(fontHeight, 2)
  }

  function YNow(s: Series, height: int): int
    requires 0 <= s.nowIndex < |s.points| && MinPrice(s.points) < MaxPrice(s.points)
  {
    PriceY(s.points[s.nowIndex].price, MinPrice(s.points), MaxPrice(s.points), height)
  }

  /** Every bar is a vertical line strictly between the frame's left and
      right edges, with its top at or below the frame's top edge and above
      or at its bottom end. */
  predicate BarsInFrame(bs: seq<Primitive>, width: int)
  {
    forall i :: 0 <= i < |bs| ==>
      bs[i].Line? && bs[i].x0 == bs[i].x1
      && BorderL < bs[i].x0 < width - BorderR && BorderT <= bs[i].y0 <= bs[i].y1
  }

  /** The bars go strictly left to right in series order. */
  predicate LeftToRight(bs: seq<Primitive>)
  {
    forall i, j :: 0 <= i < j < |bs| ==> bs[i].Line? && bs[j].Line? && bs[i].x0 < bs[j].x0
  }

  /** With at least one pixel per step across and a frame of non-negative
      height, the bars of prices on the scale stand inside the frame, from
      a top at or below its top edge down to its bottom edge, left to
      right. */
  lemma BarsInsideFrame(ps: seq<Price>, nowIndex: int, lo: int, hi: int, width: int, height: int)
    requires lo < hi && forall i :: 0 <= i < |ps| ==> lo <= ps[i].price <= hi
    requires GraphW(width) >= |ps| + 1 && GraphH(height) >= 0
    ensures BarsInFrame(BarsFrom(ps, 0, nowIndex, lo, hi, width, height), width)
    ensures LeftToRight(BarsFrom(ps, 0, nowIndex, lo, hi, width, height))
  {
    var bs := BarsFrom(ps, 0, nowIndex, lo, hi, width, height);
    forall i | 0 <= i < |bs|
      ensures bs[i].Line? && bs[i].x0 == bs[i].x1
              && BorderL < bs[i].x0 < width - BorderR && BorderT <= bs[i].y0 <= bs[i].y1
    {
      BarXInside(i, |ps|, width);
      PriceYInside(ps[i].price, lo, hi, height);
    }
    forall i, j | 0 <= i < j < |bs|
      ensures bs[i].Line? && bs[j].Line? && bs[i].x0 < bs[j].x0
    {
      BarXIncreasing(i, j, |ps|, width);
    }
  }

  /** The bars of `draw`, one per entry: each vertical, from its price's
      height down to the frame's bottom, black exactly for the current
      entry; with a pixel per step across and a frame of non-negative
      height they stand inside the frame, left to right. */
  function PlanBars(ps: seq<Price>, nowIndex: int, lo: int, hi: int, width: int, height: int): (bs: seq<Primitive>)
    requires lo < hi && forall i :: 0 <= i < |ps| ==> lo <= ps[i].price <= hi
    ensures |bs| == |ps|
    ensures forall i :: 0 <= i < |ps| ==>
              bs[i].Line? && bs[i].x0 == bs[i].x1 == BarX(i, |ps|, width)
              && bs[i].y0 == PriceY(ps[i].price, lo, hi, height) && bs[i].y1 == height - BorderB
              && bs[i].thickness == BarWidth && (bs[i].colour == Black <==> i == nowIndex)
    ensures GraphW(width) >= |ps| + 1 && GraphH(height) >= 0 ==> BarsInFrame(bs, width) && LeftToRight(bs)
  {
    if GraphW(width) >= |ps| + 1 && GraphH(height) >= 0 then
      BarsInsideFrame(ps, nowIndex, lo, hi, width, height);
      BarsFrom(ps, 0, nowIndex, lo, hi, width, height)
    else
      BarsFrom(ps, 0, nowIndex, lo, hi, width, height)
  }

  /** The current price's height lies inside a frame of non-negative
      height. */
  lemma YNowInside(s: Series, height: int)
    requires 0 <= s.nowIndex < |s.points| && MinPrice(s.points) < MaxPrice(s.points)
    ensures GraphH(height) >= 0 ==> BorderT <= YNow(s, height) <= height - BorderB
  {
    if GraphH(height) >= 0 {
      PriceYInside(s.points[s.nowIndex].price, MinPrice(s.points), MaxPrice(s.points), height);
    }
  }

  /** The chart of a series that has a current hour and a proper scale. The
      scale runs from the lowest to the highest price with 0 included. Each
      entry has a vertical bar from its price's height down to the frame's
      bottom, black exactly for the current entry; on a canvas with a pixel
      per step the bars stand inside the frame, left to right. The now line
      crosses the whole frame at the current bar's top, which lies inside
      the frame. A scale label is printed only when it is more than two font
      heights from that line, and then its text never overlaps the current
      price's. The hour labels are those of `LabelledFrom`, in order. */
  function MakePlan(s: Series, width: int, height: int, textWidth: int -> int, fontHeight: int): (p: Plan)
    requires 0 <= s.nowIndex < |s.points| && MinPrice(s.points) < MaxPrice(s.points)
    ensures p.lo == MinPrice(s.points) && p.hi == MaxPrice(s.points)
    ensures |p.bars| == |s.points|
    ensures forall i :: 0 <= i < |s.points| ==>
              p.bars[i].Line? && p.bars[i].x0 == p.bars[i].x1 == BarX(i, |s.points|, width)
              && p.bars[i].y0 == PriceY(s.points[i].price, p.lo, p.hi, height) && p.bars[i].y1 == height - BorderB
              && p.bars[i].thickness == BarWidth && (p.bars[i].colour == Black <==> i == s.nowIndex)
    ensures GraphW(width) >= |s.points| + 1 && GraphH(height) >= 0 ==> BarsInFrame(p.bars, width) && LeftToRight(p.bars)
    ensures p.yNow == p.bars[s.nowIndex].y0
    ensures GraphH(height) >= 0 ==> BorderT <= p.yNow <= height - BorderB
    ensures p.nowLine == Line(BorderL, p.yNow, width - BorderR, p.yNow, LineWidth, NowLineGrey)
    ensures p.nowLabel == Text(Amount(s.points[s.nowIndex].price), width - BorderR + LabelGap, TextTop(p.yNow, fontHeight), Black)
    ensures p.maxLabel.Some? <==> p.yNow - BorderT > 2 * fontHeight
    ensures p.maxLabel.Some? ==>
              p.maxLabel.value == Text(Amount(p.hi), width - BorderR + LabelGap, TextTop(BorderT, fontHeight), LabelGrey)
    ensures p.minLabel.Some? <==> height - BorderB - p.yNow > 2 * fontHeight
    ensures p.minLabel.Some? ==>
              p.minLabel.value == Text(Amount(p.lo), width - BorderR + LabelGap, TextTop(height - BorderB, fontHeight), LabelGrey)
    ensures fontHeight >= 0 && p.maxLabel.Some? ==> p.maxLabel.value.y + fontHeight < p.nowLabel.y
    ensures fontHeight >= 0 && p.minLabel.Some? ==> p.nowLabel.y + fontHeight < p.minLabel.value.y
    ensures |p.hourLabels| == |LabelledFrom(s.points, s.nowIndex, 0)|
    ensures forall k :: 0 <= k < |p.hourLabels| ==>
              p.hourLabels[k] == HourLabel(s.points, LabelledFrom(s.points, s.nowIndex, 0)[k], s.nowIndex, width, height, textWidth)
    ensures p.frame == Frame(width, height)
  {
    var lo, hi, y := MinPrice(s.points), MaxPrice(s.points), YNow(s, height);
    var bars := PlanBars(s.points, s.nowIndex, lo, hi, width, height);
    YNowInside(s, height);
    Plan(
      lo, hi, y,
      HourLabels(s.points, LabelledFrom(s.points, s.nowIndex, 0), s.nowIndex, width, height, textWidth),
      if y - BorderT > 2 * fontHeight
        then Some(Text(Amount(hi), width - BorderR + LabelGap, TextTop(BorderT, fontHeight), LabelGrey))
        else None,
      if height - BorderB - y > 2 * fontHeight
        then Some(Text(Amount(lo), width - BorderR + LabelGap, TextTop(height - BorderB, fontHeight), LabelGrey))
        else None,
      Line(BorderL, y, width - BorderR, y, LineWidth, NowLineGrey),
      Text(Amount(s.points[s.nowIndex].price), width - BorderR + LabelGap, TextTop(y, fontHeight), Black),
      bars,
      Frame(width, height))
  }

  /** The chart for a series on a `width` x `height` canvas, where
      `textWidth(h)` is the pixel width of hour `h` printed and `fontHeight`
      the font's height. It fails exactly when there is no current hour or
      every price is 0, and is `MakePlan` otherwise. */
  function Layout(s: Series, width: int, height: int, textWidth: int -> int, fontHeight: int): (r: Result<Plan, DrawError>)
    ensures r != Err(PricesMissing)
    ensures r == Err(NoCurrentHour) <==> !(0 <= s.nowIndex < |s.points|)
    ensures r == Err(FlatScale) <==>
              0 <= s.nowIndex < |s.points| && forall i :: 0 <= i < |s.points| ==> s.points[i].price == 0
    ensures r.Ok? ==>
              0 <= s.nowIndex < |s.points| && MinPrice(s.points) < MaxPrice(s.points)
              && r.value == MakePlan(s, width, height, textWidth, fontHeight)
  {
    if !(0 <= s.nowIndex < |s.points|) then Err(NoCurrentHour)
    else if MinPrice(s.points) == MaxPrice(s.points) then
      FlatScaleIffAllZero(s.points);
      Err(FlatScale)
    else
      FlatScaleIffAllZero(s.points);
      Ok(MakePlan(s, width, height, textWidth, fontHeight))
  }

  // ---------------------------------------------------------------------
  // Properties of the chart

  /** Bar heights follow the prices: a higher price never has a lower bar
      top. */
  lemma BarsFollowPrices(s: Series, width: int, height: int, textWidth: int -> int, fontHeight: int)
    requires Layout(s, width, height, textWidth, fontHeight).Ok?
    requires GraphH(height) >= 0
    ensures var p := Layout(s, width, height, textWidth, fontHeight).value;
            forall i, j :: 0 <= i < |p.bars| && 0 <= j < |p.bars| && s.points[i].price <= s.points[j].price ==>
              p.bars[i].Line? && p.bars[j].Line? && p.bars[j].y0 <= p.bars[i].y0
  {
    var p := Layout(s, width, height, textWidth, fontHeight).value;
    forall i, j | 0 <= i < |p.bars| && 0 <= j < |p.bars| && s.points[i].price <= s.points[j].price
      ensures p.bars[i].Line? && p.bars[j].Line? && p.bars[j].y0 <= p.bars[i].y0
    {
      assert p.bars[i].y0 == PriceY(s.points[i].price, p.lo, p.hi, height);
      assert p.bars[j].y0 == PriceY(s.points[j].price, p.lo, p.hi, height);
      PriceYMonotone(s.points[i].price, s.points[j].price, p.lo, p.hi, height);
    }
  }

  /** The highest price on the scale reaches the frame's top edge, and the
      lowest one's bar has no height. */
  lemma ExtremeBars(s: Series, width: int, height: int, textWidth: int -> int, fontHeight: int)
    requires Layout(s, width, height, textWidth, fontHeight).Ok?
    requires GraphH(height) >= 0
    ensures var p := Layout(s, width, height, textWidth, fontHeight).value;
            forall i :: 0 <= i < |p.bars| && s.points[i].price == p.hi ==> p.bars[i].Line? && p.bars[i].y0 == BorderT
    ensures var p := Layout(s, width, height, textWidth, fontHeight).value;
            forall i :: 0 <= i < |p.bars| && s.points[i].price == p.lo ==> p.bars[i].Line? && p.bars[i].y0 == p.bars[i].y1
  {
    var p := Layout(s, width, height, textWidth, fontHeight).value;
    forall i | 0 <= i < |p.bars| && s.points[i].price == p.hi
      ensures p.bars[i].Line? && p.bars[i].y0 == BorderT
    {
      assert p.bars[i].y0 == PriceY(p.hi, p.lo, p.hi, height);
      PriceYEndpoints(p.lo, p.hi, height);
    }
    forall i | 0 <= i < |p.bars| && s.points[i].price == p.lo
      ensures p.bars[i].Line? && p.bars[i].y0 == p.bars[i].y1
    {
      assert p.bars[i].y0 == PriceY(p.lo, p.lo, p.hi, height);
      PriceYEndpoints(p.lo, p.hi, height);
    }
  }

  /** The window of `EmptyTodayExample`, where the source reads
      `allPrices[-1]`, is reported as having no current hour. */
  lemma EmptyTodayReported(y: Prices, t: Prices, hour: int, width: int, height: int, textWidth: int -> int, fontHeight: int)
    requires Valid(y) && y.available
    requires Valid(t) && t.available && t.nPrices == 0
    ensures var w := Window(y, t, NoPrices, Tm(0, 0, 0, 0, 0, 0, 0));
            SeriesOf(w, hour).Some?
            && Layout(SeriesOf(w, hour).value, width, height, textWidth, fontHeight) == Err(NoCurrentHour)
  {
    EmptyTodayExample(y, t, hour);
  }

  /** Three hours at 0.010, 0.020 and 0.030 kroner, the middle one current,
      on the 960 x 540 panel: bars at x 242, 445 and 647 with tops at y 346,
      203 and 60, both scale labels printed, and one hour label. */
  lemma LayoutExample()
    ensures var s := Series([Price(10, Tm(124, 0, 1, 0, 0, 0, -1)),
                             Price(20, Tm(124, 0, 1, 1, 0, 0, -1)),
                             Price(30, Tm(124, 0, 1, 2, 0, 0, -1))], 1);
            var r := Layout(s, 960, 540, _ => 20, 20);
            r.Ok? && r.value.lo == 0 && r.value.hi == 30 && r.value.yNow == 203
            && r.value.bars == [Line(242, 346, 242, 490, 12, 7), Line(445, 203, 445, 490, 12, 15), Line(647, 60, 647, 490, 12, 7)]
            && r.value.maxLabel.Some? && r.value.minLabel.Some? && |r.value.hourLabels| == 1
  {
    var ps := [Price(10, Tm(124, 0, 1, 0, 0, 0, -1)),
               Price(20, Tm(124, 0, 1, 1, 0, 0, -1)),
               Price(30, Tm(124, 0, 1, 2, 0, 0, -1))];
    assert ps[..2][..1] == ps[..1];
    assert ps[..2][..0] == ps[..0];
    assert MinPrice(ps) == 0;
    assert MaxPrice(ps) == 30;
    assert LabelledFrom(ps, 1, 0) == [1];
    var s := Series(ps, 1);
    var p := MakePlan(s, 960, 540, _ => 20, 20);
    assert PriceY(10, 0, 30, 540) == 346;
    assert PriceY(20, 0, 30, 540) == 203;
    assert PriceY(30, 0, 30, 540) == 60;
    assert BarX(0, 3, 960) == 242;
    assert BarX(1, 3, 960) == 445;
    assert BarX(2, 3, 960) == 647;
    assert p.bars == [Line(242, 346, 242, 490, 12, 7), Line(445, 203, 445, 490, 12, 15), Line(647, 60, 647, 490, 12, 7)];
  }

  // ---------------------------------------------------------------------
  // draw

  /** `ElPris::draw` up to the canvas: collect the series for the current
      hour, or stop when a bucket is missing, then lay the chart out. */
  method Draw(w: Window, now: Tm, width: int, height: int, textWidth: int -> int, fontHeight: int)
    returns (r: Result<Plan, DrawError>)
    requires ValidWindow(w)
    ensures r == Err(PricesMissing) <==> !(w.today.available && (w.tomorrow.available || w.yesterday.available))
    ensures SeriesOf(w, now.hour).Some? ==> r == Layout(SeriesOf(w, now.hour).value, width, height, textWidth, fontHeight)
  {
    SeriesShape(w, now.hour);
    var s := CollectSeries(w, now.hour);
    if s.None? {
      return Err(PricesMissing);
    }
    r := Layout(s.value, width, height, textWidth, fontHeight);
  }
}
