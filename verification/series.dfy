/** The first half of `ElPris::draw`: which two day buckets are charted, laid
    end to end in the 50-slot `allPrices` array, and which of their entries is
    the current hour (`iPriceNow`). */
module PriceSeries {
  import opened Basics
  import opened ApiTime
  import opened Buckets
  import opened PriceWindow

  /** The capacity of `allPrices`: two full day buckets. */
  const BufferSize := 2 * MaxPrices

  /** The charted prices, oldest first, and the index of the current hour in
      them, -1 when no entry carries the current hour. */
  datatype Series = Series(points: seq<Price>, nowIndex: int)

  /** The index of the last entry of `ps` stamped with hour `hour`, or -1
      when there is none: the scan keeps overwriting `iPriceNow`, so a later
      match wins. */
  function LastHourIndex(ps: seq<Price>, hour: int): (k: int)
    ensures -1 <= k < |ps|
    ensures k >= 0 ==> ps[k].time.hour == hour
    ensures forall j :: k < j < |ps| ==> ps[j].time.hour != hour
  {
    if |ps| == 0 then -1
    else if ps[|ps| - 1].time.hour == hour then |ps| - 1
    else LastHourIndex(ps[..|ps| - 1], hour)
  }

  /** A position in the second bucket's part of the buffer, or -1 kept. */
  function Offset(k: int, n: int): int
  {
    if k < 0 then -1 else k + n
  }

  /** Reference definition of the series: whenever tomorrow's bucket is
      present, today followed by tomorrow; otherwise yesterday
      followed by today. Either way the current hour is looked up in today's
      entries only. `None` is the early return when a needed bucket is
      absent. */
  function SeriesOf(w: Window, hour: int): Option<Series>
    requires ValidWindow(w)
  {
    if w.tomorrow.available then
      if !w.today.available then None
      else Some(Series(Entries(w.today) + Entries(w.tomorrow), LastHourIndex(Entries(w.today), hour)))
    else if !(w.today.available && w.yesterday.available) then None
    else Some(Series(Entries(w.yesterday) + Entries(w.today),
                     Offset(LastHourIndex(Entries(w.today), hour), w.yesterday.nPrices)))
  }

  /** The first bucket in the chart: today when tomorrow is there, else
      yesterday. */
  function Before(w: Window): Prices
  {
    if w.tomorrow.available then w.today else w.yesterday
  }

  /** The second bucket in the chart: tomorrow when it is there, else today. */
  function After(w: Window): Prices
  {
    if w.tomorrow.available then w.tomorrow else w.today
  }

  /** The series is charted exactly when today's bucket is present together
      with tomorrow's or yesterday's; it is the two buckets' entries end to
      end, and its current index, when not -1, points into today's part at an
      entry of the current hour with no later entry of today sharing it. */
  lemma SeriesShape(w: Window, hour: int)
    requires ValidWindow(w)
    ensures SeriesOf(w, hour).Some?
            <==> w.today.available && (w.tomorrow.available || w.yesterday.available)
    ensures SeriesOf(w, hour).Some? ==>
              SeriesOf(w, hour).value.points == Entries(Before(w)) + Entries(After(w))
              && |SeriesOf(w, hour).value.points| <= BufferSize
    ensures SeriesOf(w, hour).Some? ==>
              var s := SeriesOf(w, hour).value;
              var start := if w.tomorrow.available then 0 else w.yesterday.nPrices;
              -1 <= s.nowIndex < start + w.today.nPrices
              && (s.nowIndex >= 0 ==> start <= s.nowIndex && s.points[s.nowIndex].time.hour == hour)
              && (forall j :: s.nowIndex < j < start + w.today.nPrices && start <= j ==> s.points[j].time.hour != hour)
  {
  }

  /** The current index is -1 exactly when no entry of today's bucket carries
      the current hour; in particular whenever today's bucket is present but
      empty. */
  lemma NoCurrentHourWhenUnmatched(w: Window, hour: int)
    requires ValidWindow(w) && SeriesOf(w, hour).Some?
    ensures SeriesOf(w, hour).value.nowIndex == -1
            <==> forall j :: 0 <= j < w.today.nPrices ==> w.today.slots[j].time.hour != hour
  {
    var es := Entries(w.today);
    var k := LastHourIndex(es, hour);
    if k == -1 {
      forall j | 0 <= j < w.today.nPrices
        ensures w.today.slots[j].time.hour != hour
      {
        assert es[j] == w.today.slots[j];
      }
    } else {
      assert es[k] == w.today.slots[k];
    }
  }

  /** A window `update` can leave behind on a fetch that returned an empty
      array: yesterday present, today present with no entries, tomorrow not
      yet published. The chart is drawn, with no current hour, so `draw`
      reads `allPrices[-1]`. */
  lemma EmptyTodayExample(y: Prices, t: Prices, hour: int)
    requires Valid(y) && y.available
    requires Valid(t) && t.available && t.nPrices == 0
    ensures SeriesOf(Window(y, t, NoPrices, Tm(0, 0, 0, 0, 0, 0, 0)), hour)
            == Some(Series(Entries(y), -1))
  {
    assert Entries(t) == [];
    assert Entries(y) + [] == Entries(y);
  }

  /** One copy loop of `draw`: bucket `b`'s entries, in array order, into
      the buffer from position `at` on; the rest of the buffer is kept. */
  method CopyEntries(buffer: seq<Price>, at: nat, b: Prices) returns (out: seq<Price>)
    requires Valid(b) && |buffer| == BufferSize && at + b.nPrices <= BufferSize
    ensures |out| == BufferSize
    ensures forall j :: 0 <= j < at ==> out[j] == buffer[j]
    ensures forall j :: 0 <= j < b.nPrices ==> out[at + j] == b.slots[j]
  {
    out := buffer;
    var i := 0;
    while i < b.nPrices
      invariant 0 <= i <= b.nPrices
      invariant |out| == BufferSize
      invariant forall j :: 0 <= j < at ==> out[j] == buffer[j]
      invariant forall j :: 0 <= j < i ==> out[at + j] == b.slots[j]
    {
      out := out[at + i := b.slots[i]];
      i := i + 1;
    }
  }

  /** The copy loop over today's bucket, which also records the buffer
      position of the last entry of the current hour (-1 when none). */
  method CopyTracking(buffer: seq<Price>, at: nat, b: Prices, hour: int) returns (out: seq<Price>, nowIndex: int)
    requires Valid(b) && |buffer| == BufferSize && at + b.nPrices <= BufferSize
    ensures |out| == BufferSize
    ensures forall j :: 0 <= j < at ==> out[j] == buffer[j]
    ensures forall j :: 0 <= j < b.nPrices ==> out[at + j] == b.slots[j]
    ensures nowIndex == Offset(LastHourIndex(Entries(b), hour), at)
  {
    out := buffer;
    nowIndex := -1;
    var i := 0;
    while i < b.nPrices
      invariant 0 <= i <= b.nPrices
      invariant |out| == BufferSize
      invariant forall j :: 0 <= j < at ==> out[j] == buffer[j]
      invariant forall j :: 0 <= j < i ==> out[at + j] == b.slots[j]
      invariant nowIndex == Offset(LastHourIndex(b.slots[..i], hour), at)
    {
      out := out[at + i := b.slots[i]];
      if b.slots[i].time.hour == hour {
        nowIndex := at + i;
      }
      assert b.slots[..i + 1][..i] == b.slots[..i];
      i := i + 1;
    }
  }

  /** The buffer loops of `draw`: the two buckets' entries copied end to end
      into the 50-slot `allPrices`, with the current hour tracked while
      today's entries are copied. */
  method CollectSeries(w: Window, hour: int) returns (r: Option<Series>)
    requires ValidWindow(w)
    ensures r == SeriesOf(w, hour)
  {
    if !w.today.available || (!w.tomorrow.available && !w.yesterday.available) {
      return None;
    }
    var buffer, nowIndex;
    if w.tomorrow.available {
      buffer, nowIndex := CopyTracking(Unwritten(BufferSize), 0, w.today, hour);
      buffer := CopyEntries(buffer, w.today.nPrices, w.tomorrow);
    } else {
      buffer := CopyEntries(Unwritten(BufferSize), 0, w.yesterday);
      buffer, nowIndex := CopyTracking(buffer, w.yesterday.nPrices, w.today, hour);
    }
    var first, second := Before(w), After(w);
    var n := first.nPrices + second.nPrices;
    assert buffer[..n] == Entries(first) + Entries(second);
    r := Some(Series(buffer[..n], nowIndex));
  }
}
