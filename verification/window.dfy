/** The three day buckets ElPris keeps (yesterday, today, tomorrow) and its
    `update` step: shift the buckets when the day of the month changed, then
    fetch the buckets that are missing. `main.cpp` builds one `ElPris` per
    boot and calls `update` once on it before shutting down, so every boot
    starts from `Initial`; successive calls on one object are modelled too,
    as the class allows them. The three fetch results are parameters; the
    model does not reach the network. */
module PriceWindow {
  import opened ApiTime
  import opened Buckets

  /** Prices for the next day are published at 13:00. */
  const PublishHour := 13

  datatype Window = Window(yesterday: Prices, today: Prices, tomorrow: Prices, lastUpdate: Tm)

  predicate ValidWindow(w: Window) {
    Valid(w.yesterday) && Valid(w.today) && Valid(w.tomorrow)
  }

  /** A freshly constructed ElPris: every bucket default-constructed, and
      `lastUpdate` zero-initialised as a global. */
  const Initial := Window(NoPrices, NoPrices, NoPrices, Tm(0, 0, 0, 0, 0, 0, 0))

  /** The three `fetchPrices` calls `update` may make (day offsets -1, 0
      and 1). */
  datatype Slot = Yesterday | Today | Tomorrow

  function Bucket(w: Window, s: Slot): Prices
  {
    match s
    case Yesterday => w.yesterday
    case Today => w.today
    case Tomorrow => w.tomorrow
  }

  /** The shift condition: only the day of the month is compared, and only
      when today's bucket is present. */
  predicate DayChanged(w: Window, now: Tm) {
    w.today.available && now.mday != w.lastUpdate.mday
  }

  /** The shift by index: yesterday takes today's bucket and today takes
      tomorrow's. Tomorrow's slot is left as it was. */
  function Shift(w: Window, now: Tm): Window
  {
    if DayChanged(w, now) then w.(yesterday := w.today, today := w.tomorrow) else w
  }

  /** The slots of a (shifted) window that `update` fetches at `hour`. */
  function Missing(s: Window, hour: int): set<Slot>
  {
    (if !s.yesterday.available then {Yesterday} else {})
    + (if !s.today.available then {Today} else {})
    + (if !s.tomorrow.available && hour >= PublishHour then {Tomorrow} else {})
  }

  /** Installs the fetch result of every requested slot and stamps `now`. */
  function Refill(s: Window, req: set<Slot>, now: Tm, fetchedY: Prices, fetchedT: Prices, fetchedTm: Prices): Window
  {
    Window(
      if Yesterday in req then fetchedY else s.yesterday,
      if Today in req then fetchedT else s.today,
      if Tomorrow in req then fetchedTm else s.tomorrow,
      now)
  }

  /** The buckets `update` fetches after the shift: yesterday and today
      whenever missing, tomorrow only when missing and not before 13:00. */
  function Requests(w: Window, now: Tm): (req: set<Slot>)
    ensures Yesterday in req <==> !DayChanged(w, now) && !w.yesterday.available
    ensures Today in req <==> !(if DayChanged(w, now) then w.tomorrow else w.today).available
    ensures Tomorrow in req <==> !w.tomorrow.available && now.hour >= PublishHour
  {
    Missing(Shift(w, now), now.hour)
  }

  /** `ElPris::update`, with `fetchedY`, `fetchedT` and `fetchedTm` standing
      for what `fetchPrices(-1)`, `fetchPrices()` and `fetchPrices(1)` would
      return; a result is used only when its call is made. */
  function Update(w: Window, now: Tm, fetchedY: Prices, fetchedT: Prices, fetchedTm: Prices): (r: Window)
    ensures r.lastUpdate == now
    ensures DayChanged(w, now) ==> r.yesterday == w.today
    ensures !DayChanged(w, now) ==> r.yesterday == (if w.yesterday.available then w.yesterday else fetchedY)
    ensures DayChanged(w, now) ==> r.today == (if w.tomorrow.available then w.tomorrow else fetchedT)
    ensures !DayChanged(w, now) ==> r.today == (if w.today.available then w.today else fetchedT)
    ensures r.tomorrow == (if !w.tomorrow.available && now.hour >= PublishHour then fetchedTm else w.tomorrow)
  {
    Refill(Shift(w, now), Requests(w, now), now, fetchedY, fetchedT, fetchedTm)
  }

  function Fetched(s: Slot, fetchedY: Prices, fetchedT: Prices, fetchedTm: Prices): Prices
  {
    match s
    case Yesterday => fetchedY
    case Today => fetchedT
    case Tomorrow => fetchedTm
  }

  // ---------------------------------------------------------------------
  // Properties of update

  /** After the shift, a slot is replaced by its fetch result exactly when it
      is requested, and an available bucket is never requested, so never
      overwritten. */
  lemma {:induction false} UpdateReplacesOnlyRequested(w: Window, now: Tm, fy: Prices, ft: Prices, ftm: Prices, s: Slot)
    ensures var r := Update(w, now, fy, ft, ftm);
            Bucket(r, s) == (if s in Requests(w, now) then Fetched(s, fy, ft, ftm) else Bucket(Shift(w, now), s))
    ensures Bucket(Shift(w, now), s).available ==> s !in Requests(w, now)
    ensures Bucket(Shift(w, now), s).available ==> Bucket(Update(w, now, fy, ft, ftm), s) == Bucket(Shift(w, now), s)
  {
    match s
    case Yesterday =>
    case Today =>
    case Tomorrow =>
  }

  /** Without today's bucket no shift happens at all, whatever the date. */
  lemma NoShiftWithoutToday(w: Window, now: Tm)
    requires !w.today.available
    ensures Shift(w, now) == w
    ensures Requests(w, now) >= {Today}
  {
  }

  /** `update` keeps every bucket a well-formed fixed-size array. */
  lemma UpdateKeepsValid(w: Window, now: Tm, fy: Prices, ft: Prices, ftm: Prices)
    requires ValidWindow(w) && Valid(fy) && Valid(ft) && Valid(ftm)
    ensures ValidWindow(Update(w, now, fy, ft, ftm))
  {
  }

  /** When every fetch made succeeds, yesterday and today are present
      afterwards, and tomorrow too from 13:00. */
  lemma UpdateFillsMissing(w: Window, now: Tm, fy: Prices, ft: Prices, ftm: Prices)
    requires fy.available && ft.available && ftm.available
    ensures var r := Update(w, now, fy, ft, ftm);
            r.yesterday.available && r.today.available
            && (now.hour >= PublishHour ==> r.tomorrow.available)
  {
  }

  /** A second update at the same moment, after the first one's fetches
      succeeded, changes nothing and fetches nothing. */
  lemma UpdateSettles(w: Window, now: Tm, fy: Prices, ft: Prices, ftm: Prices, gy: Prices, gt: Prices, gtm: Prices)
    requires fy.available && ft.available && ftm.available
    ensures var r := Update(w, now, fy, ft, ftm);
            Requests(r, now) == {} && Update(r, now, gy, gt, gtm) == r
  {
    var r := Update(w, now, fy, ft, ftm);
    assert !DayChanged(r, now);
  }

  /** The first `update` on a fresh object: nothing is present, so nothing
      shifts; yesterday and today are always fetched, tomorrow only from
      13:00, and before 13:00 tomorrow's slot stays empty. */
  lemma FirstUpdateAfterBoot(now: Tm, fy: Prices, ft: Prices, ftm: Prices)
    ensures !DayChanged(Initial, now)
    ensures Requests(Initial, now)
         == if now.hour >= PublishHour then {Yesterday, Today, Tomorrow} else {Yesterday, Today}
    ensures var r := Update(Initial, now, fy, ft, ftm);
            r.yesterday == fy && r.today == ft
            && r.tomorrow == (if now.hour >= PublishHour then ftm else NoPrices)
  {
  }

  /** Only the day of the month is compared: an update on the 5th of
      February after one on the 5th of January does not shift, and keeps
      every present bucket where it was. */
  lemma SameDayOfLaterMonthDoesNotShift(y: Prices, t: Prices, tm: Prices, fy: Prices, ft: Prices, ftm: Prices)
    requires t.available
    ensures var w := Window(y, t, tm, Tm(124, 0, 5, 14, 0, 0, -1));
            var now := Tm(124, 1, 5, 14, 0, 0, -1);
            !DayChanged(w, now) && Shift(w, now) == w
            && Update(w, now, fy, ft, ftm)
               == Window(if y.available then y else fy, t, if tm.available then tm else ftm, now)
  {
  }

  /** Several skipped days still shift only once: the index shift cannot
      tell one day from three. */
  lemma SkippedDaysShiftOnce(w: Window, now: Tm, fy: Prices, ft: Prices, ftm: Prices)
    requires w.today.available && w.tomorrow.available
    requires now.mday == w.lastUpdate.mday + 3
    ensures var r := Update(w, now, fy, ft, ftm);
            r.yesterday == w.today && r.today == w.tomorrow
  {
  }

  // ---------------------------------------------------------------------
  // Successive updates of one object, and the duplicated tomorrow bucket

  /** One call of `update`: the time and what the three fetches would
      return. */
  datatype Call = Call(now: Tm, fetchedY: Prices, fetchedT: Prices, fetchedTm: Prices)

  /** Successive calls of `update` on one `ElPris` object, in order. */
  function Run(w: Window, calls: seq<Call>): Window
    decreases |calls|
  {
    if |calls| == 0 then w
    else Run(Update(w, calls[0].now, calls[0].fetchedY, calls[0].fetchedT, calls[0].fetchedTm), calls[1..])
  }

  /** On a day change with tomorrow's bucket present, that bucket lands in
      both the today and the tomorrow slot, and tomorrow is not fetched. */
  lemma ShiftDuplicatesTomorrow(w: Window, now: Tm, fy: Prices, ft: Prices, ftm: Prices)
    requires DayChanged(w, now) && w.tomorrow.available
    ensures var r := Update(w, now, fy, ft, ftm);
            r.today == w.tomorrow && r.tomorrow == w.tomorrow
    ensures Tomorrow !in Requests(w, now)
  {
  }

  /** Once today and tomorrow hold the same present bucket (and yesterday is
      present), no later sequence of updates changes either slot: the
      tomorrow bucket is never fetched again. */
  lemma {:induction false} DuplicateIsPermanent(w: Window, calls: seq<Call>)
    requires w.today == w.tomorrow && w.today.available && w.yesterday.available
    ensures Run(w, calls).today == w.today && Run(w, calls).tomorrow == w.today
    decreases |calls|
  {
    if |calls| > 0 {
      var k := calls[0];
      var r := Update(w, k.now, k.fetchedY, k.fetchedT, k.fetchedTm);
      assert r.today == w.today && r.tomorrow == w.today && r.yesterday.available;
      DuplicateIsPermanent(r, calls[1..]);
    }
  }

  /** The concrete trace on one object: three present buckets for days 1, 2
      and 3, one update on day 2 and then any number of further updates;
      the chart keeps showing day 3's prices as both today and tomorrow. */
  lemma StaleTomorrowExample(b1: Prices, b2: Prices, b3: Prices, now: Tm, later: seq<Call>)
    requires b1.available && b2.available && b3.available
    requires now.mday == 2
    ensures var w := Window(b1, b2, b3, Tm(124, 0, 1, 14, 0, 0, -1));
            var r := Run(w, [Call(now, NoPrices, NoPrices, NoPrices)] + later);
            r.today == b3 && r.tomorrow == b3
  {
    var w := Window(b1, b2, b3, Tm(124, 0, 1, 14, 0, 0, -1));
    var first := Call(now, NoPrices, NoPrices, NoPrices);
    var r1 := Update(w, now, NoPrices, NoPrices, NoPrices);
    assert r1.today == b3 && r1.tomorrow == b3;
    DuplicateIsPermanent(r1, later);
    assert ([first] + later)[1..] == later;
  }

  // ---------------------------------------------------------------------
  // The evidently intended update: tomorrow's slot is emptied by the shift

  function ShiftCorrected(w: Window, now: Tm): Window
  {
    if DayChanged(w, now) then Window(w.today, w.tomorrow, NoPrices, w.lastUpdate) else w
  }

  function RequestsCorrected(w: Window, now: Tm): (req: set<Slot>)
    ensures Yesterday in req <==> !DayChanged(w, now) && !w.yesterday.available
    ensures Today in req <==> !(if DayChanged(w, now) then w.tomorrow else w.today).available
    ensures Tomorrow in req <==> (DayChanged(w, now) || !w.tomorrow.available) && now.hour >= PublishHour
  {
    Missing(ShiftCorrected(w, now), now.hour)
  }

  /** `update` with the shift also emptying tomorrow's slot. */
  function UpdateCorrected(w: Window, now: Tm, fetchedY: Prices, fetchedT: Prices, fetchedTm: Prices): (r: Window)
    ensures r.lastUpdate == now
    ensures DayChanged(w, now) ==> r.yesterday == w.today
    ensures DayChanged(w, now) ==> r.tomorrow == (if now.hour >= PublishHour then fetchedTm else NoPrices)
    ensures !DayChanged(w, now) ==> r == Update(w, now, fetchedY, fetchedT, fetchedTm)
  {
    Refill(ShiftCorrected(w, now), RequestsCorrected(w, now), now, fetchedY, fetchedT, fetchedTm)
  }

  /** With the correction, a day change never leaves the old tomorrow bucket
      in the tomorrow slot: before 13:00 the slot is empty, from 13:00 it
      holds a fresh fetch. */
  lemma CorrectedShiftDoesNotDuplicate(w: Window, now: Tm, fy: Prices, ft: Prices, ftm: Prices)
    requires DayChanged(w, now) && w.tomorrow.available
    ensures var r := UpdateCorrected(w, now, fy, ft, ftm);
            r.today == w.tomorrow
            && (now.hour < PublishHour ==> !r.tomorrow.available)
            && (now.hour >= PublishHour ==> Tomorrow in RequestsCorrected(w, now) && r.tomorrow == ftm)
  {
  }

  /** With the correction, the duplicated state of `DuplicateIsPermanent` is
      left at the next day change from 13:00 on: tomorrow is fetched anew. */
  lemma {:induction false} CorrectedLeavesDuplicate(w: Window, calls: seq<Call>)
    requires w.today == w.tomorrow && w.today.available && w.yesterday.available
    requires |calls| > 0 && DayChanged(w, calls[0].now) && calls[0].now.hour >= PublishHour
    ensures UpdateCorrected(w, calls[0].now, calls[0].fetchedY, calls[0].fetchedT, calls[0].fetchedTm).tomorrow
         == calls[0].fetchedTm
  {
  }
}
