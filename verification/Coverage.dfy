/** The coverage report of openpine/adapters/bars.py: which slots of the requested range a bar series
    leaves out, and the status derived from it. */
module Coverage {
  import opened NumberTheory
  import opened Prelude
  import opened Sorting

  datatype Bar = Bar(time: int, timeClose: int)

  datatype Status = Empty | Duplicate | Unordered | Gap | Valid

  type Interval = (int, int)

  datatype Report = Report(
    start: int, end: int, deliveredStart: Option<int>, deliveredEnd: Option<int>,
    missing: seq<Interval>, duplicates: seq<int>, status: Status)

  // ----- the report

  function Times(bars: seq<Bar>): set<int> {
    set bar | bar in bars :: bar.time
  }

  function Min(a: int, b: int): int {
    if a <= b then a else b
  }

  /** One interval per grid point `start`, `start + duration`, ... below `end` that was not delivered,
      the last one cut at `end`. */
  function MissingSlots(start: int, end: int, duration: nat, delivered: set<int>): seq<Interval>
    requires duration > 0
    decreases end - start
  {
    if start >= end then []
    else
      (if start in delivered then [] else [(start, Min(start + duration, end))])
      + MissingSlots(start + duration, end, duration, delivered)
  }

  /** Times that more than one bar carries, ascending. */
  function DuplicateTimes(bars: seq<Bar>): seq<int> {
    SortedKeys(set i, j | 0 <= i < j < |bars| && bars[i].time == bars[j].time :: bars[j].time)
  }

  predicate Ascending(bars: seq<Bar>) {
    forall i :: 0 <= i < |bars| - 1 ==> bars[i].time < bars[i + 1].time
  }

  function LatestClose(bars: seq<Bar>): int
    requires bars != []
  {
    if |bars| == 1 then bars[0].timeClose
    else
      var rest := LatestClose(bars[1..]);
      if bars[0].timeClose >= rest then bars[0].timeClose else rest
  }

  /** `_coverage_for`; a timeframe without a fixed duration has no slots. */
  function CoverageFor(start: int, end: int, duration: Option<nat>, bars: seq<Bar>): Report
    requires duration.Some? ==> duration.value > 0
  {
    if bars == [] then Report(start, end, None, None, [(start, end)], [], Empty)
    else
      var missing := if duration.Some? then MissingSlots(start, end, duration.value, Times(bars)) else [];
      var duplicates := DuplicateTimes(bars);
      var ordered := Ascending(bars);
      var status := if duplicates != [] then Duplicate else if !ordered then Unordered else if missing != [] then Gap else Valid;
      Report(start, end, Some(bars[0].time), Some(LatestClose(bars)),
             if ordered && duplicates == [] then missing else [], duplicates, status)
  }

  // ----- tiling

  /** `g` is a grid point of the request. */
  ghost predicate GridPoint(start: int, end: int, duration: int, g: int) {
    start <= g < end && Divides(duration, g - start)
  }

  /** `t` lies in the slot that grid point `g` opens. */
  ghost predicate InSlot(g: int, duration: int, end: int, t: int) {
    g <= t < Min(g + duration, end)
  }

  ghost predicate Covered(missing: seq<Interval>, t: int) {
    exists i :: 0 <= i < |missing| && missing[i].0 <= t < missing[i].1
  }

  lemma CoveredCons(slot: Interval, rest: seq<Interval>, t: int)
    ensures Covered([slot] + rest, t) <==> slot.0 <= t < slot.1 || Covered(rest, t)
  {
    var all := [slot] + rest;
    if i :| 0 <= i < |rest| && rest[i].0 <= t < rest[i].1 {
      assert all[i + 1] == rest[i];
    }
    if slot.0 <= t < slot.1 {
      assert all[0] == slot;
    }
  }

  lemma GridStep(start: int, end: int, duration: int, g: int)
    requires duration > 0 && start < end
    ensures GridPoint(start, end, duration, g) <==> g == start || GridPoint(start + duration, end, duration, g)
  {
    if GridPoint(start, end, duration, g) && g != start {
      var k := Quotient(duration, g - start);
      assert k >= 1 by {
        assert k <= 0 ==> duration * k <= 0;
      }
      MonotoneProduct(duration, 1, k);
      Distribute(duration, k, 1);
      assert IsProduct(duration, k - 1, g - (start + duration));
    }
    if GridPoint(start + duration, end, duration, g) {
      var k := Quotient(duration, g - (start + duration));
      Distribute(duration, k, 1);
      assert IsProduct(duration, k + 1, g - start);
    }
    assert IsProduct(duration, 0, start - start);
  }

  /** Every instant of the request lies in exactly one slot. */
  lemma {:induction false} SlotExists(start: int, end: int, duration: int, t: int) returns (g: int)
    requires duration > 0 && start <= t < end
    ensures GridPoint(start, end, duration, g) && InSlot(g, duration, end, t)
    decreases t - start
  {
    GridStep(start, end, duration, start);
    if t < start + duration {
      g := start;
    } else {
      g := SlotExists(start + duration, end, duration, t);
      GridStep(start, end, duration, g);
    }
  }

  lemma SlotUnique(start: int, end: int, duration: int, g: int, h: int, t: int)
    requires duration > 0 && GridPoint(start, end, duration, g) && GridPoint(start, end, duration, h)
    requires InSlot(g, duration, end, t) && InSlot(h, duration, end, t)
    ensures g == h
  {
    DividesSum(duration, g - start, h - start);
    var k := Quotient(duration, g - h);
    SmallMultiple(duration, k, g - h);
  }

  /** The missing intervals are the slots of undelivered grid points: an instant is covered by one
      exactly when the grid point of its slot was not delivered. */
  lemma {:induction false} MissingCoversUndelivered(start: int, end: int, duration: nat, delivered: set<int>, g: int, t: int)
    requires duration > 0 && GridPoint(start, end, duration, g) && InSlot(g, duration, end, t)
    ensures Covered(MissingSlots(start, end, duration, delivered), t) <==> g !in delivered
    decreases end - start
  {
    GridStep(start, end, duration, g);
    var rest := MissingSlots(start + duration, end, duration, delivered);
    var all := MissingSlots(start, end, duration, delivered);
    MissingOrdered(start + duration, end, duration, delivered);
    if g == start {
      assert !Covered(rest, t) by {
        forall i | 0 <= i < |rest|
          ensures t < rest[i].0
        {
          InOrderStarts(rest, start + duration, end, i);
        }
      }
      CoveredCons((start, Min(start + duration, end)), rest, t);
    } else {
      MissingCoversUndelivered(start + duration, end, duration, delivered, g, t);
      if start in delivered {
        assert all == rest;
      } else {
        CoveredCons((start, Min(start + duration, end)), rest, t);
      }
    }
  }

  /** Non-empty intervals inside `[from, to)`, each beginning no earlier than the one before it ends. */
  ghost predicate InOrder(missing: seq<Interval>, from: int, to: int) {
    missing == [] || (from <= missing[0].0 < missing[0].1 <= to && InOrder(missing[1..], missing[0].1, to))
  }

  lemma {:induction false} InOrderStarts(missing: seq<Interval>, from: int, to: int, i: nat)
    requires InOrder(missing, from, to) && i < |missing|
    ensures from <= missing[i].0
  {
    if i > 0 {
      InOrderStarts(missing[1..], missing[0].1, to, i - 1);
    }
  }

  lemma {:induction false} MissingOrdered(start: int, end: int, duration: nat, delivered: set<int>)
    requires duration > 0
    ensures InOrder(MissingSlots(start, end, duration, delivered), start, end)
    decreases end - start
  {
    if start < end {
      MissingOrdered(start + duration, end, duration, delivered);
      var rest := MissingSlots(start + duration, end, duration, delivered);
      var all := MissingSlots(start, end, duration, delivered);
      if start in delivered {
        assert all == rest;
      } else {
        assert all == [(start, Min(start + duration, end))] + rest;
        assert all[1..] == rest;
      }
    }
  }

  /** The missing list is empty exactly when every grid point was delivered. */
  lemma {:induction false} NothingMissingExactly(start: int, end: int, duration: nat, delivered: set<int>)
    requires duration > 0
    ensures MissingSlots(start, end, duration, delivered) == [] <==>
            forall g :: GridPoint(start, end, duration, g) ==> g in delivered
    decreases end - start
  {
    if start < end {
      NothingMissingExactly(start + duration, end, duration, delivered);
      forall g
        ensures GridPoint(start, end, duration, g) <==> g == start || GridPoint(start + duration, end, duration, g)
      {
        GridStep(start, end, duration, g);
      }
    }
  }

  lemma {:induction false} AscendingPairs(bars: seq<Bar>, i: nat, j: nat)
    requires Ascending(bars) && i < j < |bars|
    ensures bars[i].time < bars[j].time
  {
    if i < j - 1 {
      AscendingPairs(bars, i, j - 1);
    }
    assert bars[j - 1].time < bars[(j - 1) + 1].time;
  }

  lemma NoDuplicatesInOrder(bars: seq<Bar>)
    requires Ascending(bars)
    ensures DuplicateTimes(bars) == []
  {
    forall i, j | 0 <= i < j < |bars|
      ensures bars[i].time != bars[j].time
    {
      AscendingPairs(bars, i, j);
    }
    assert (set i, j | 0 <= i < j < |bars| && bars[i].time == bars[j].time :: bars[j].time) == {};
  }

  /** "valid" means exactly: some bars, strictly ascending, and every grid point delivered. */
  lemma ValidExactly(start: int, end: int, duration: Option<nat>, bars: seq<Bar>)
    requires duration.Some? ==> duration.value > 0
    ensures CoverageFor(start, end, duration, bars).status == Valid <==>
            && bars != [] && Ascending(bars)
            && (duration.Some? ==> forall g :: GridPoint(start, end, duration.value, g) ==> g in Times(bars))
  {
    if Ascending(bars) {
      NoDuplicatesInOrder(bars);
    }
    if duration.Some? {
      NothingMissingExactly(start, end, duration.value, Times(bars));
    }
  }

  lemma {:induction false} LatestCloseIsGreatest(bars: seq<Bar>)
    requires bars != []
    ensures exists bar :: bar in bars && bar.timeClose == LatestClose(bars)
    ensures forall bar :: bar in bars ==> bar.timeClose <= LatestClose(bars)
  {
    assert bars[0] in bars;
    if |bars| > 1 {
      LatestCloseIsGreatest(bars[1..]);
      var bar :| bar in bars[1..] && bar.timeClose == LatestClose(bars[1..]);
      assert bar in bars;
      assert forall b :: b in bars ==> b == bars[0] || b in bars[1..];
    }
  }

  /** Some two bars carry the time. */
  ghost predicate Repeated(bars: seq<Bar>, t: int) {
    exists i, j :: 0 <= i < j < |bars| && bars[i].time == t && bars[j].time == t
  }

  lemma DuplicatesExactly(bars: seq<Bar>)
    ensures forall t :: t in DuplicateTimes(bars) <==> Repeated(bars, t)
    ensures forall i, j :: 0 <= i < j < |DuplicateTimes(bars)| ==> DuplicateTimes(bars)[i] < DuplicateTimes(bars)[j]
  {
  }

  ghost predicate AllDelivered(start: int, end: int, duration: Option<nat>, bars: seq<Bar>) {
    duration.Some? ==> forall g :: GridPoint(start, end, duration.value, g) ==> exists bar :: bar in bars && bar.time == g
  }

  ghost predicate OutOfOrder(bars: seq<Bar>) {
    exists i :: 0 < i < |bars| && bars[i - 1].time >= bars[i].time
  }

  /** The whole report: each status, the delivered range, the repeated times and the gaps, which are
      reported for ascending bars only. */
  lemma ReportExactly(start: int, end: int, duration: Option<nat>, bars: seq<Bar>)
    requires duration.Some? ==> duration.value > 0
    ensures var report := CoverageFor(start, end, duration, bars);
            && report.start == start && report.end == end
            && (report.status == Empty <==> bars == [])
            && (report.status == Duplicate <==> exists t :: Repeated(bars, t))
            && (report.status == Unordered <==> OutOfOrder(bars) && forall t :: !Repeated(bars, t))
            && (report.status == Gap <==> bars != [] && !OutOfOrder(bars) && !AllDelivered(start, end, duration, bars))
            && (report.status == Valid <==> bars != [] && !OutOfOrder(bars) && AllDelivered(start, end, duration, bars))
            && (forall t :: t in report.duplicates <==> Repeated(bars, t))
            && (bars == [] ==> report.missing == [(start, end)] && report.deliveredStart.None? && report.deliveredEnd.None?)
            && (bars != [] && (OutOfOrder(bars) || duration.None?) ==> report.missing == [])
  {
    DuplicatesExactly(bars);
    var duplicates := DuplicateTimes(bars);
    assert duplicates != [] <==> exists t :: t in duplicates by {
      assert duplicates != [] ==> duplicates[0] in duplicates;
    }
    InOrderExactly(bars);
    if Ascending(bars) {
      NoDuplicatesInOrder(bars);
    }
    if duration.Some? {
      NothingMissingExactly(start, end, duration.value, Times(bars));
      assert forall g :: g in Times(bars) <==> exists bar :: bar in bars && bar.time == g;
    }
  }

  lemma InOrderExactly(bars: seq<Bar>)
    ensures Ascending(bars) <==> !OutOfOrder(bars)
  {
    if i :| 0 <= i < |bars| - 1 && bars[i].time >= bars[i + 1].time {
      assert 0 < i + 1 < |bars| && bars[(i + 1) - 1].time >= bars[i + 1].time;
    }
    if i :| 0 < i < |bars| && bars[i - 1].time >= bars[i].time {
      assert !(bars[i - 1].time < bars[(i - 1) + 1].time);
    }
  }

  /** The delivered range: the first bar's time, and the greatest close of any bar. */
  lemma DeliveredRange(start: int, end: int, duration: Option<nat>, bars: seq<Bar>)
    requires bars != [] && (duration.Some? ==> duration.value > 0)
    ensures var report := CoverageFor(start, end, duration, bars);
            && report.deliveredStart == Some(bars[0].time) && report.deliveredEnd.Some?
            && (exists bar :: bar in bars && report.deliveredEnd == Some(bar.timeClose))
            && (forall bar :: bar in bars ==> bar.timeClose <= report.deliveredEnd.value)
  {
    LatestCloseIsGreatest(bars);
  }

  /** For ascending bars the report tiles the request: each instant of `[start, end)` is in a
      reported gap or in the slot of a delivered grid point, and never in both. */
  lemma ReportTilesRequest(start: int, end: int, duration: nat, bars: seq<Bar>, t: int)
    requires duration > 0 && bars != [] && Ascending(bars) && start <= t < end
    ensures var missing := CoverageFor(start, end, Some(duration), bars).missing;
            !Covered(missing, t) <==>
            exists g :: GridPoint(start, end, duration, g) && InSlot(g, duration, end, t) && g in Times(bars)
  {
    NoDuplicatesInOrder(bars);
    var g := SlotExists(start, end, duration, t);
    MissingCoversUndelivered(start, end, duration, Times(bars), g, t);
    forall h | GridPoint(start, end, duration, h) && InSlot(h, duration, end, t)
      ensures h == g
    {
      SlotUnique(start, end, duration, g, h, t);
    }
  }
}
