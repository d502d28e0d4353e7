/** The paged kline download of openpine/data/direct_provider.py: a cursor loop under an estimated
    page cap, started at a memoised listing start, against a server that answers each request with
    the first entries of its listing inside the requested range. */
module DirectProvider {
  import opened NumberTheory
  import opened Prelude
  import opened Sorting

  const PAGE_LIMIT: nat := 1000

  type Quote(==, !new)

  datatype Bar = Bar(time: int, quote: Quote)

  // ----- the server

  /** Consecutive opens at least `duration` apart, none before the epoch. */
  ghost predicate Listing(bars: seq<Bar>, duration: int) {
    && duration > 0
    && (forall i :: 0 <= i < |bars| ==> bars[i].time >= 0)
    && (forall i, j :: 0 <= i < j < |bars| ==> bars[i].time + duration <= bars[j].time)
  }

  /** How many of the bars open before `t`. */
  function Before(bars: seq<Bar>, t: int): (n: nat)
    ensures n <= |bars|
  {
    if bars == [] then 0
    else if bars[|bars| - 1].time < t then |bars|
    else Before(bars[..|bars| - 1], t)
  }

  lemma {:induction false} BeforeSplits(bars: seq<Bar>, t: int, duration: int)
    requires Listing(bars, duration)
    ensures forall i :: 0 <= i < |bars| ==> (bars[i].time < t <==> i < Before(bars, t))
  {
    if bars != [] {
      var front := bars[..|bars| - 1];
      BeforeSplits(front, t, duration);
      assert forall i :: 0 <= i < |front| ==> bars[i] == front[i];
      assert forall i :: 0 <= i < |front| ==> bars[i].time < bars[|bars| - 1].time;
    }
  }

  lemma {:induction false} NoneBefore(bars: seq<Bar>, t: int)
    requires forall i :: 0 <= i < |bars| ==> bars[i].time >= t
    ensures Before(bars, t) == 0
  {
    if bars != [] {
      NoneBefore(bars[..|bars| - 1], t);
    }
  }

  /** The listed bars that open in `[from, to]`. */
  function InRange(bars: seq<Bar>, from: int, to: int): (r: seq<Bar>) {
    var lo, hi := Before(bars, from), Before(bars, to + 1);
    if lo <= hi then bars[lo..hi] else []
  }

  /** The body of a kline reply: the first `limit` entries in range. */
  function Reply(bars: seq<Bar>, from: int, to: int, limit: nat): (r: seq<Bar>) {
    var range := InRange(bars, from, to);
    if |range| <= limit then range else range[..limit]
  }

  lemma InRangeExact(bars: seq<Bar>, from: int, to: int, duration: int)
    requires Listing(bars, duration)
    ensures Listing(InRange(bars, from, to), duration)
    ensures forall b :: b in InRange(bars, from, to) <==> b in bars && from <= b.time <= to
  {
    BeforeSplits(bars, from, duration);
    BeforeSplits(bars, to + 1, duration);
    var lo, hi := Before(bars, from), Before(bars, to + 1);
    var range := InRange(bars, from, to);
    assert forall i :: 0 <= i < |range| ==> range[i] == bars[lo + i];
    forall b | b in range
      ensures b in bars && from <= b.time <= to
    {
      var i :| 0 <= i < |range| && range[i] == b;
      assert lo <= lo + i < hi && bars[lo + i] == b;
    }
    forall b | b in bars && from <= b.time <= to
      ensures b in InRange(bars, from, to)
    {
      var i :| 0 <= i < |bars| && bars[i] == b;
      assert lo <= i < hi;
      assert bars[lo..hi][i - lo] == b;
    }
  }

  /** Advancing the cursor past the last bar of a full page leaves exactly the rest of the range. */
  lemma NextPage(bars: seq<Bar>, from: int, to: int, n: nat, duration: int)
    requires Listing(bars, duration) && 0 < n <= |InRange(bars, from, to)|
    ensures var range := InRange(bars, from, to);
            InRange(bars, range[n - 1].time + duration, to) == range[n..]
  {
    var range := InRange(bars, from, to);
    var lo, hi := Before(bars, from), Before(bars, to + 1);
    var last := bars[lo + n - 1];
    assert range[n - 1] == last;
    var next := Before(bars, last.time + duration);
    BeforeSplits(bars, from, duration);
    BeforeSplits(bars, to + 1, duration);
    BeforeSplits(bars, last.time + duration, duration);
    assert next >= lo + n;
    assert lo + n < |bars| ==> bars[lo + n].time >= last.time + duration;
    assert next == lo + n;
  }

  // ----- estimates

  /** `query.timeframe.duration_ms or 60000` */
  function DurationMs(duration: Option<nat>): (d: nat)
    ensures d > 0
  {
    if duration.None? || duration.value == 0 then 60000 else duration.value
  }

  function EstimateBars(start: int, end: int, duration: int): (n: nat)
    requires duration > 0
  {
    if end < start then 0 else (end - start) / duration + 1
  }

  function EstimatePages(start: int, end: int, duration: int): (n: nat)
    requires duration > 0
  {
    (EstimateBars(start, end, duration) + PAGE_LIMIT - 1) / PAGE_LIMIT
  }

  /** The estimates: as many bars as grid points from `start` to `end`, and just enough pages for them. */
  lemma EstimatesExactly(start: int, end: int, duration: int)
    requires duration > 0
    ensures var n := EstimateBars(start, end, duration);
            && (end < start ==> n == 0)
            && (start <= end ==> n >= 1 && duration * (n - 1) <= end - start < duration * n)
            && 1000 * (EstimatePages(start, end, duration) - 1) < n <= 1000 * EstimatePages(start, end, duration)
  {
    if start <= end {
      var q, r := DivMod(end - start, duration);
      Distribute(duration, q, 1);
    }
  }

  lemma {:induction false} SpreadOut(bars: seq<Bar>, duration: int)
    requires Listing(bars, duration) && bars != []
    ensures bars[|bars| - 1].time - bars[0].time >= duration * (|bars| - 1)
  {
    if |bars| > 1 {
      var front := bars[..|bars| - 1];
      SpreadOut(front, duration);
      Distribute(duration, |bars| - 2, 1);
    }
  }

  /** The estimates really are upper bounds on what a range can hold. */
  lemma EstimateIsEnough(bars: seq<Bar>, from: int, to: int, duration: int)
    requires Listing(bars, duration)
    ensures |InRange(bars, from, to)| <= EstimateBars(from, to, duration)
    ensures |InRange(bars, from, to)| <= PAGE_LIMIT * EstimatePages(from, to, duration)
  {
    InRangeExact(bars, from, to, duration);
    var range := InRange(bars, from, to);
    if range != [] {
      assert range[0] in range && range[|range| - 1] in range;
      SpreadOut(range, duration);
      SpanHolds(|range|, to - from, duration);
    }
  }

  lemma SpanHolds(n: nat, span: int, duration: int)
    requires duration > 0 && n >= 1 && span >= duration * (n - 1)
    ensures n <= span / duration + 1
  {
    var q, r := DivMod(span, duration);
    if n - 1 > q {
      MonotoneProduct(duration, q + 1, n - 1);
      Distribute(duration, q, 1);
    }
  }

  // ----- the download

  datatype Stop = ServerFailed | EmptyPage | ShortPage | PastEnd | PageCapReached

  ghost predicate AscendingTimes(bars: seq<Bar>) {
    forall i, j :: 0 <= i < j < |bars| ==> bars[i].time < bars[j].time
  }

  function ByTime(bars: seq<Bar>): map<int, Bar> {
    if bars == [] then map[]
    else ByTime(bars[..|bars| - 1])[bars[|bars| - 1].time := bars[|bars| - 1]]
  }

  lemma {:induction false} ByTimeOfAscending(bars: seq<Bar>)
    requires AscendingTimes(bars)
    ensures forall b :: b in bars ==> b.time in ByTime(bars) && ByTime(bars)[b.time] == b
    ensures forall t :: t in ByTime(bars) ==> ByTime(bars)[t] in bars && ByTime(bars)[t].time == t
  {
    if bars != [] {
      ByTimeOfAscending(bars[..|bars| - 1]);
      FrontIsEarlier(bars);
      assert bars == bars[..|bars| - 1] + [bars[|bars| - 1]];
    }
  }

  lemma FrontIsEarlier(bars: seq<Bar>)
    requires AscendingTimes(bars) && bars != []
    ensures forall b :: b in bars[..|bars| - 1] ==> b.time < bars[|bars| - 1].time
  {
    forall b | b in bars[..|bars| - 1]
      ensures b.time < bars[|bars| - 1].time
    {
      var i :| 0 <= i < |bars| - 1 && bars[i] == b;
    }
  }

  /** The final "sort and deduplicate". */
  function SortedByTime(bars: seq<Bar>): seq<Bar> {
    var byTime := ByTime(bars);
    var times := SortedKeys(byTime.Keys);
    seq(|times|, i requires 0 <= i < |times| => assert times[i] in times; byTime[times[i]])
  }

  /** It is the identity on what the page loop collects. */
  lemma SortedByTimeKeepsAscending(bars: seq<Bar>)
    requires AscendingTimes(bars)
    ensures SortedByTime(bars) == bars
  {
    var times := SortedKeys(ByTime(bars).Keys);
    var opens := seq(|bars|, i requires 0 <= i < |bars| => bars[i].time);
    ByTimeOfAscending(bars);
    assert Ascending(opens);
    forall t
      ensures t in opens <==> t in times
    {
      OpensAreKeys(bars, opens, t);
    }
    AscendingUnique(opens, times);
    forall i | 0 <= i < |bars|
      ensures SortedByTime(bars)[i] == bars[i]
    {
      assert bars[i] in bars && times[i] == opens[i];
    }
  }

  method SortAndDeduplicate(bars: seq<Bar>) returns (sorted: seq<Bar>)
    ensures sorted == SortedByTime(bars)
    ensures AscendingTimes(bars) ==> sorted == bars
  {
    sorted := SortedByTime(bars);
    if AscendingTimes(bars) {
      SortedByTimeKeepsAscending(bars);
    }
  }

  lemma OpensAreKeys(bars: seq<Bar>, opens: seq<int>, t: int)
    requires AscendingTimes(bars)
    requires |opens| == |bars| && forall i :: 0 <= i < |bars| ==> opens[i] == bars[i].time
    ensures t in opens <==> t in ByTime(bars)
  {
    ByTimeOfAscending(bars);
    if t in opens {
      var i :| 0 <= i < |opens| && opens[i] == t;
      assert bars[i] in bars;
    }
    if t in ByTime(bars) {
      var i :| 0 <= i < |bars| && bars[i] == ByTime(bars)[t];
      assert opens[i] == t;
    }
  }

  /** `bars` is what has been collected of `range`; asking from `cursor` on would give the rest. */
  ghost predicate Collected(listing: seq<Bar>, end: int, range: seq<Bar>, bars: seq<Bar>, cursor: int) {
    bars <= range && InRange(listing, cursor, end) == range[|bars|..]
  }

  lemma PageStep(listing: seq<Bar>, end: int, duration: int, range: seq<Bar>, bars: seq<Bar>, cursor: int)
    requires Listing(listing, duration) && Collected(listing, end, range, bars, cursor)
    ensures var raw := Reply(listing, cursor, end, PAGE_LIMIT);
            && bars + raw <= range
            && (|raw| < PAGE_LIMIT ==> bars + raw == range)
            && (|raw| == PAGE_LIMIT ==>
                  Collected(listing, end, range, bars + raw, raw[|raw| - 1].time + duration))
  {
    var raw := Reply(listing, cursor, end, PAGE_LIMIT);
    var rest := range[|bars|..];
    assert raw == rest[..|raw|];
    assert bars + rest == range;
    assert bars + raw == range[..|bars| + |raw|];
    if |raw| == PAGE_LIMIT {
      NextPage(listing, cursor, end, |raw|, duration);
      assert rest[|raw|..] == range[|bars + raw|..];
    }
  }

  /** The page cap, which exceeds what any listed range fills. */
  method MaxPages(ghost listing: seq<Bar>, start: int, end: int, duration: int) returns (n: nat)
    requires Listing(listing, duration)
    ensures n >= 1 && |InRange(listing, start, end)| < PAGE_LIMIT * n
    ensures n == EstimatePages(start, end, duration) + 5
  {
    var totalPages := EstimatePages(start, end, duration);
    n := if totalPages + 5 > 1 then totalPages + 5 else 1;
    EstimateIsEnough(listing, start, end, duration);
  }

  /** What `asked` answered requests leave collected: a prefix of the range; after a failure exactly
      the first `asked` pages, and otherwise everything that opens before `end`. */
  ghost predicate Fetched(range: seq<Bar>, end: int, up: nat -> bool, bars: seq<Bar>, stop: Stop, asked: nat) {
    && bars <= range && |bars| <= 1000 * asked && (forall j: nat :: j < asked ==> up(j))
    && stop != PageCapReached
    && if stop == ServerFailed then !up(asked) && |bars| == 1000 * asked else NothingLeft(range, bars, end)
  }

  /** Why and when the loop stops: another page is asked for only after a full one that ends more than a
      bar before the end; and the last page is empty, short, or full and up to the end. */
  ghost predicate Paged(range: seq<Bar>, end: int, duration: int, bars: seq<Bar>, stop: Stop, asked: nat) {
    && EarlyPages(range, end, duration, if stop == ServerFailed then asked else asked - 1)
    && match stop
       case ServerFailed => true
       case EmptyPage => asked > 0 && |bars| == 1000 * (asked - 1) && bars == range
       case ShortPage => asked > 0 && 1000 * (asked - 1) < |bars| < 1000 * asked && bars == range
       case PastEnd => asked > 0 && |bars| == 1000 * asked <= |range| && range[1000 * asked - 1].time + duration >= end
       case PageCapReached => false
  }

  /** The range fills `k` pages, and the bar after the last of them would open before the end. */
  ghost predicate EndsEarly(range: seq<Bar>, end: int, duration: int, k: int) {
    k >= 1 && 1000 * k <= |range| && range[1000 * k - 1].time + duration < end
  }

  ghost predicate EarlyPages(range: seq<Bar>, end: int, duration: int, n: int) {
    forall k :: 1 <= k <= n ==> EndsEarly(range, end, duration, k)
  }

  lemma OneMorePage(range: seq<Bar>, end: int, duration: int, page: nat, bars: seq<Bar>)
    requires EarlyPages(range, end, duration, page) && bars <= range && |bars| == 1000 * (page + 1)
    requires bars[|bars| - 1].time + duration < end
    ensures EarlyPages(range, end, duration, page + 1)
  {
    assert EndsEarly(range, end, duration, page + 1);
  }

  ghost predicate NothingLeft(range: seq<Bar>, bars: seq<Bar>, end: int) {
    forall i :: |bars| <= i < |range| ==> range[i].time >= end
  }

  /** The page loop over `[start, end]`, with the request of page `k` answered when `up(k)`. It
      is never cut short by the page cap. */
  method FetchPages(listing: seq<Bar>, start: int, end: int, duration: int, up: nat -> bool)
    returns (bars: seq<Bar>, stop: Stop, ghost asked: nat)
    requires Listing(listing, duration)
    ensures bars <= InRange(listing, start, end) && stop != PageCapReached
    ensures stop != ServerFailed ==> NothingLeft(InRange(listing, start, end), bars, end)
    ensures Fetched(InRange(listing, start, end), end, up, bars, stop, asked)
    ensures Paged(InRange(listing, start, end), end, duration, bars, stop, asked)
  {
    var maxPages := MaxPages(listing, start, end, duration);
    ghost var range := InRange(listing, start, end);
    var cursor := start;
    bars := [];
    for page := 0 to maxPages
      invariant |bars| == 1000 * page && AllUp(up, page)
      invariant Collected(listing, end, range, bars, cursor)
      invariant EarlyPages(range, end, duration, page)
    {
      if !up(page) {
        StoppedByFailure(range, end, duration, up, bars, page);
        return bars, ServerFailed, page;
      }
      var last;
      ghost var before := bars;
      bars, cursor, last := TakePage(listing, end, duration, range, bars, cursor);
      if last.Some? {
        StoppedByPage(range, end, duration, up, before, bars, last.value, page);
        return bars, last.value, page + 1;
      }
      OneMorePage(range, end, duration, page, bars);
    }
    stop, asked := PageCapReached, maxPages;
  }

  ghost predicate AllUp(up: nat -> bool, n: nat) {
    forall j: nat :: j < n ==> up(j)
  }

  lemma StoppedByFailure(range: seq<Bar>, end: int, duration: int, up: nat -> bool, bars: seq<Bar>, page: nat)
    requires bars <= range && |bars| == 1000 * page && AllUp(up, page) && !up(page) && EarlyPages(range, end, duration, page)
    ensures Fetched(range, end, up, bars, ServerFailed, page) && Paged(range, end, duration, bars, ServerFailed, page)
  {
  }

  /** What the last page shows. */
  ghost predicate LastPage(range: seq<Bar>, end: int, duration: int, before: seq<Bar>, bars: seq<Bar>, stop: Stop) {
    match stop
    case EmptyPage => bars == before == range
    case ShortPage => |before| < |bars| < |before| + PAGE_LIMIT && bars == range
    case PastEnd => |bars| == |before| + PAGE_LIMIT && bars[|bars| - 1].time + duration >= end
    case _ => false
  }

  lemma StoppedByPage(range: seq<Bar>, end: int, duration: int, up: nat -> bool, before: seq<Bar>, bars: seq<Bar>, stop: Stop, page: nat)
    requires bars <= range && |before| == 1000 * page && AllUp(up, page) && up(page) && EarlyPages(range, end, duration, page)
    requires LastPage(range, end, duration, before, bars, stop) && NothingLeft(range, bars, end)
    ensures Fetched(range, end, up, bars, stop, page + 1) && Paged(range, end, duration, bars, stop, page + 1)
  {
  }

  /** One answered request: its bars are added, and either nothing before the end is left or the
      cursor stands at the next page. */
  method TakePage(listing: seq<Bar>, end: int, duration: int, ghost range: seq<Bar>, bars: seq<Bar>, cursor: int)
    returns (more: seq<Bar>, next: int, last: Option<Stop>)
    requires Listing(listing, duration) && Collected(listing, end, range, bars, cursor)
    ensures more == bars + Reply(listing, cursor, end, PAGE_LIMIT) <= range && |more| <= |bars| + PAGE_LIMIT
    ensures last.Some? ==> last.value != ServerFailed && last.value != PageCapReached && NothingLeft(range, more, end)
    ensures last.None? ==> |more| == |bars| + PAGE_LIMIT && Collected(listing, end, range, more, next)
    ensures last.None? ==> more[|more| - 1].time + duration < end
    ensures last.Some? ==> LastPage(range, end, duration, bars, more, last.value)
  {
    PageStep(listing, end, duration, range, bars, cursor);
    var raw := Reply(listing, cursor, end, PAGE_LIMIT);
    more, next := bars + raw, cursor;
    if raw == [] {
      return more, next, Some(EmptyPage);
    }
    if |raw| < PAGE_LIMIT {
      return more, next, Some(ShortPage);
    }
    next := raw[|raw| - 1].time + duration;
    if next >= end {
      NothingBeforeEndIsLeft(listing, next, end, duration, range, more);
      return more, next, Some(PastEnd);
    }
    last := None;
  }

  lemma NothingBeforeEndIsLeft(listing: seq<Bar>, cursor: int, end: int, duration: int, range: seq<Bar>, bars: seq<Bar>)
    requires Listing(listing, duration) && cursor >= end
    requires Collected(listing, end, range, bars, cursor)
    ensures NothingLeft(range, bars, end)
  {
    var rest := InRange(listing, cursor, end);
    InRangeExact(listing, cursor, end, duration);
    forall i | |bars| <= i < |range|
      ensures range[i].time >= end
    {
      assert range[i] == rest[i - |bars|];
    }
  }

  // ----- what a failed request costs

  /** The first request that is not answered is number `k`, and the first bar it would have brought
      opens before the end of the request. */
  ghost predicate LostPage(range: seq<Bar>, end: int, up: nat -> bool, k: nat) {
    && !up(k) && (forall j: nat :: j < k ==> up(j))
    && 1000 * k < |range| && range[1000 * k].time < end
  }

  /** A fetch leaves a bar before the end behind exactly when a page is lost. */
  lemma LeftExactly(range: seq<Bar>, end: int, up: nat -> bool, bars: seq<Bar>, stop: Stop, asked: nat)
    requires AscendingTimes(range) && Fetched(range, end, up, bars, stop, asked)
    ensures !NothingLeft(range, bars, end) <==> exists k: nat :: LostPage(range, end, up, k)
    ensures forall k: nat :: LostPage(range, end, up, k) ==> k == asked && |bars| == PAGE_LIMIT * k
  {
    if !NothingLeft(range, bars, end) {
      var i :| |bars| <= i < |range| && range[i].time < end;
      assert range[PAGE_LIMIT * asked].time <= range[i].time;
      assert LostPage(range, end, up, asked);
    }
    forall k: nat | LostPage(range, end, up, k)
      ensures k == asked && |bars| == PAGE_LIMIT * k && !NothingLeft(range, bars, end)
    {
      LostPageIsAsked(range, end, up, bars, stop, asked, k);
    }
  }

  lemma LostPageIsAsked(range: seq<Bar>, end: int, up: nat -> bool, bars: seq<Bar>, stop: Stop, asked: nat, k: nat)
    requires Fetched(range, end, up, bars, stop, asked) && LostPage(range, end, up, k)
    ensures k == asked && |bars| == PAGE_LIMIT * k && !NothingLeft(range, bars, end)
  {
    assert k >= asked;
    assert |bars| <= PAGE_LIMIT * k < |range|;
    assert range[PAGE_LIMIT * k].time < end;
  }

  /** A listed bar before the end is missing from the result. */
  ghost predicate Misses(listing: seq<Bar>, start: int, end: int, bars: seq<Bar>) {
    exists b :: b in listing && start <= b.time < end && b !in bars
  }

  lemma MissesExactly(listing: seq<Bar>, start: int, end: int, duration: int, bars: seq<Bar>)
    requires Listing(listing, duration) && bars <= InRange(listing, start, end)
    ensures Misses(listing, start, end, bars) <==> !NothingLeft(InRange(listing, start, end), bars, end)
  {
    InRangeExact(listing, start, end, duration);
    LeftMembers(InRange(listing, start, end), bars, end);
  }

  lemma LeftMembers(range: seq<Bar>, bars: seq<Bar>, end: int)
    requires AscendingTimes(range) && bars <= range
    ensures (exists b :: b in range && b.time < end && b !in bars) <==> !NothingLeft(range, bars, end)
  {
    if b :| b in range && b.time < end && b !in bars {
      var i :| 0 <= i < |range| && range[i] == b;
    }
    if i :| |bars| <= i < |range| && range[i].time < end {
      assert forall j :: 0 <= j < |bars| ==> bars[j] == range[j] && range[j].time < range[i].time;
    }
  }

  // ----- the coverage report of a fetch

  datatype Status = Valid | Empty

  datatype Report = Report(
    requestedStart: int, requestedEnd: int, deliveredStart: Option<int>, deliveredEnd: Option<int>, status: Status)

  method CoverageOf(start: int, end: int, duration: int, bars: seq<Bar>) returns (report: Report)
    ensures report.requestedStart == start && report.requestedEnd == end
    ensures report.deliveredStart == if bars == [] then None else Some(bars[0].time)
    ensures report.deliveredEnd == if bars == [] then None else Some(bars[|bars| - 1].time + duration)
    ensures report.status == Valid <==> bars != []
  {
    if bars == [] {
      return Report(start, end, None, None, Empty);
    }
    report := Report(start, end, Some(bars[0].time), Some(bars[|bars| - 1].time + duration), Valid);
  }

  // ----- the memoised listing start

  /** `(base url, symbol, interval)`, which selects one listing. */
  type Key = (string, string, string)

  /** A memo entry names the first open of its listing; a failed or empty lookup is remembered as
      "unknown" and clamps nothing. */
  ghost predicate MemoCorrect(memo: map<Key, Option<int>>, key: Key, listing: seq<Bar>) {
    key in memo && memo[key].Some? ==> listing != [] && memo[key].value == listing[0].time
  }

  /** Listings grow at the end, and a correct memo stays correct. */
  lemma MemoSurvivesNewBars(memo: map<Key, Option<int>>, key: Key, listing: seq<Bar>, more: seq<Bar>)
    requires MemoCorrect(memo, key, listing)
    ensures MemoCorrect(memo, key, listing + more)
  {
  }

  lemma FirstListed(listing: seq<Bar>, end: int, duration: int)
    requires Listing(listing, duration)
    ensures Reply(listing, 0, end, 1) == if listing != [] && listing[0].time <= end then [listing[0]] else []
  {
    NoneBefore(listing, 0);
    BeforeSplits(listing, end + 1, duration);
  }

  /** The listing start that a fetch goes by: the remembered one, or else what the lookup finds. */
  ghost function KnownStart(memo: map<Key, Option<int>>, key: Key, listing: seq<Bar>, end: int, up: bool): Option<int> {
    if key in memo then memo[key]
    else if up && listing != [] && listing[0].time <= end then Some(listing[0].time)
    else None
  }

  class DirectBinanceProvider {
    var earliestOpen: map<Key, Option<int>>

    constructor ()
      ensures earliestOpen == map[]
    {
      earliestOpen := map[];
    }

    /** Looks the first open up once per key; `up` says whether the request is answered. */
    method GetEarliestOpenTime(key: Key, end: int, listing: seq<Bar>, ghost duration: int, up: bool)
      returns (earliest: Option<int>)
      requires Listing(listing, duration) && MemoCorrect(earliestOpen, key, listing)
      modifies this
      ensures MemoCorrect(earliestOpen, key, listing)
      ensures key in earliestOpen && earliest == earliestOpen[key]
      ensures earliestOpen == old(earliestOpen)[key := earliest]
      ensures key in old(earliestOpen) ==> earliestOpen == old(earliestOpen)
      ensures key !in old(earliestOpen) ==>
                earliest == if up && listing != [] && listing[0].time <= end then Some(listing[0].time) else None
    {
      if key in earliestOpen {
        return earliestOpen[key];
      }
      if !up {
        earliestOpen := earliestOpen[key := None];
        return None;
      }
      var raw := Reply(listing, 0, end, 1);
      FirstListed(listing, end, duration);
      earliest := if raw != [] then Some(raw[0].time) else None;
      earliestOpen := earliestOpen[key := earliest];
    }

    /** Clamps the start to the listing start; no listed bar of the request is clamped away. */
    method EffectiveStart(key: Key, start: int, end: int, listing: seq<Bar>, ghost duration: int, up: bool)
      returns (effective: int)
      requires Listing(listing, duration) && MemoCorrect(earliestOpen, key, listing)
      modifies this
      ensures MemoCorrect(earliestOpen, key, listing)
      ensures earliestOpen == old(earliestOpen)[key := KnownStart(old(earliestOpen), key, listing, end, up)]
      ensures effective == if earliestOpen[key].Some? && earliestOpen[key].value > start then earliestOpen[key].value else start
      ensures forall b :: b in listing && start <= b.time ==> effective <= b.time
      ensures InRange(listing, effective, end) == InRange(listing, start, end)
    {
      var earliest := GetEarliestOpenTime(key, end, listing, duration, up);
      effective := if earliest.Some? && earliest.value > start then earliest.value else start;
      ClampedRange(listing, start, effective, end, duration);
    }

    /** `fetch_bars` with the persistent cache off. */
    method FetchBars(key: Key, start: int, end: int, frame: Option<nat>, listing: seq<Bar>,
                     lookupUp: bool, up: nat -> bool)
      returns (bars: seq<Bar>, report: Report, stop: Stop, ghost asked: nat)
      requires Listing(listing, DurationMs(frame)) && MemoCorrect(earliestOpen, key, listing)
      modifies this
      ensures MemoCorrect(earliestOpen, key, listing)
      ensures earliestOpen == old(earliestOpen)[key := KnownStart(old(earliestOpen), key, listing, end, lookupUp)]
      ensures Delivers(listing, start, end, if frame.Some? && frame.value > 0 then frame.value else 60000, up, bars, stop, asked)
      ensures Reports(listing, start, end, if frame.Some? && frame.value > 0 then frame.value else 60000, up, bars, report)
      ensures report.requestedStart ==
              if earliestOpen[key].Some? && earliestOpen[key].value > start then earliestOpen[key].value else start
    {
      var duration := DurationMs(frame);
      var effective := EffectiveStart(key, start, end, listing, duration, lookupUp);
      bars, report, stop, asked := Download(listing, start, effective, end, duration, up);
    }
  }

  /** Listed bars of `[start, end]` in ascending order, none skipped; every listed bar of `[start, end)`
      unless a request failed, and then exactly the pages before it. */
  ghost predicate Delivers(listing: seq<Bar>, start: int, end: int, duration: int, up: nat -> bool,
                           bars: seq<Bar>, stop: Stop, asked: nat) {
    && Prefix(listing, start, end, bars)
    && Fetched(InRange(listing, start, end), end, up, bars, stop, asked)
    && Paged(InRange(listing, start, end), end, duration, bars, stop, asked)
    && (stop != ServerFailed ==> !Misses(listing, start, end, bars))
  }

  /** The report calls any bars at all valid, so it says "valid" while a listed bar is missing exactly
      when a page after the first is lost. */
  ghost predicate Reports(listing: seq<Bar>, start: int, end: int, duration: int, up: nat -> bool,
                          bars: seq<Bar>, report: Report) {
    && report.requestedEnd == end
    && report.deliveredStart == (if bars == [] then None else Some(bars[0].time))
    && report.deliveredEnd == (if bars == [] then None else Some(bars[|bars| - 1].time + duration))
    && (report.status == Valid <==> bars != [])
    && (Misses(listing, start, end, bars) <==>
        exists k: nat :: LostPage(InRange(listing, start, end), end, up, k))
    && (report.status == Valid && Misses(listing, start, end, bars) <==>
        exists k: nat :: k > 0 && LostPage(InRange(listing, start, end), end, up, k))
  }

  /** The body of `fetch_bars` once the start is clamped. */
  method Download(listing: seq<Bar>, ghost start: int, effective: int, end: int, duration: int, up: nat -> bool)
    returns (bars: seq<Bar>, report: Report, stop: Stop, ghost asked: nat)
    requires Listing(listing, duration) && start <= effective
    requires InRange(listing, effective, end) == InRange(listing, start, end)
    ensures Delivers(listing, start, end, duration, up, bars, stop, asked)
    ensures Reports(listing, start, end, duration, up, bars, report) && report.requestedStart == effective
  {
    var collected;
    collected, stop, asked := FetchPages(listing, effective, end, duration, up);
    PrefixOfRange(listing, start, end, duration, collected);
    bars := SortAndDeduplicate(collected);
    report := CoverageOf(effective, end, duration, bars);
    FailureCosts(listing, start, end, duration, up, bars, stop, asked);
  }

  lemma FailureCosts(listing: seq<Bar>, start: int, end: int, duration: int, up: nat -> bool,
                     bars: seq<Bar>, stop: Stop, asked: nat)
    requires Listing(listing, duration) && Fetched(InRange(listing, start, end), end, up, bars, stop, asked)
    ensures stop != ServerFailed ==> !Misses(listing, start, end, bars)
    ensures Misses(listing, start, end, bars) <==>
            exists k: nat :: LostPage(InRange(listing, start, end), end, up, k)
    ensures bars != [] && Misses(listing, start, end, bars) <==>
            exists k: nat :: k > 0 && LostPage(InRange(listing, start, end), end, up, k)
  {
    InRangeExact(listing, start, end, duration);
    MissesExactly(listing, start, end, duration, bars);
    LeftExactly(InRange(listing, start, end), end, up, bars, stop, asked);
  }

  lemma ClampedRange(listing: seq<Bar>, start: int, effective: int, end: int, duration: int)
    requires Listing(listing, duration) && start <= effective
    requires forall b :: b in listing && start <= b.time ==> effective <= b.time
    ensures InRange(listing, effective, end) == InRange(listing, start, end)
  {
    BeforeSplits(listing, start, duration);
    BeforeSplits(listing, effective, duration);
    var lo, hi := Before(listing, start), Before(listing, effective);
    assert lo < |listing| ==> listing[lo].time >= start && listing[lo] in listing;
    assert hi < |listing| ==> listing[hi].time >= effective;
    assert lo == hi;
  }

  /** Such a fetch: the second of two pages fails, and the report is "valid" without the last bar. */
  method FailedPageReportsValid(quote: Quote) returns (bars: seq<Bar>, report: Report, listing: seq<Bar>)
    ensures Listing(listing, 1) && report.status == Valid && Misses(listing, 0, PAGE_LIMIT + 1, bars)
  {
    listing := seq(PAGE_LIMIT + 1, i => Bar(i, quote));
    var up := (k: nat) => k == 0;
    SecondPageLost(listing, up);
    var provider := new DirectBinanceProvider();
    var stop: Stop;
    ghost var asked: nat;
    bars, report, stop, asked := provider.FetchBars(("", "", ""), 0, PAGE_LIMIT + 1, Some(1), listing, true, up);
    LossIsReported(listing, 0, PAGE_LIMIT + 1, 1, up, bars, report, 1);
  }

  lemma SecondPageLost(listing: seq<Bar>, up: nat -> bool)
    requires |listing| == PAGE_LIMIT + 1 && forall i :: 0 <= i < |listing| ==> listing[i].time == i
    requires forall k: nat :: up(k) <==> k == 0
    ensures Listing(listing, 1) && LostPage(InRange(listing, 0, PAGE_LIMIT + 1), PAGE_LIMIT + 1, up, 1)
  {
    NoneBefore(listing, 0);
    assert InRange(listing, 0, PAGE_LIMIT + 1) == listing;
  }

  lemma LossIsReported(listing: seq<Bar>, start: int, end: int, duration: int, up: nat -> bool, bars: seq<Bar>, report: Report, k: nat)
    requires Reports(listing, start, end, duration, up, bars, report)
    requires k > 0 && LostPage(InRange(listing, start, end), end, up, k)
    ensures report.status == Valid && Misses(listing, start, end, bars)
  {
  }

  /** Listed bars of the range in ascending order, with no listed bar of the range skipped. */
  ghost predicate Prefix(listing: seq<Bar>, from: int, to: int, bars: seq<Bar>) {
    && AscendingTimes(bars)
    && (forall b :: b in bars ==> b in listing && from <= b.time <= to)
    && (forall b, c :: b in listing && c in bars && from <= b.time <= c.time ==> b in bars)
  }

  lemma PrefixOfRange(listing: seq<Bar>, from: int, to: int, duration: int, bars: seq<Bar>)
    requires Listing(listing, duration) && bars <= InRange(listing, from, to)
    ensures Prefix(listing, from, to, bars)
  {
    var range := InRange(listing, from, to);
    InRangeExact(listing, from, to, duration);
    PrefixClosed(range, bars);
  }

  lemma PrefixClosed(range: seq<Bar>, bars: seq<Bar>)
    requires AscendingTimes(range) && bars <= range
    ensures AscendingTimes(bars) && forall b :: b in bars ==> b in range
    ensures forall b, c :: b in range && c in bars && b.time <= c.time ==> b in bars
  {
  }
}
