/** The TradingView overlay: openpine/batch/tv_corpus.py collects the bars all chart exports of a group
    show and patches provider bars with them; openpine/batch/runner.py then puts the chart's own bars
    on top. */
module TvOverlay {
  import opened Prelude
  import opened Sorting

  /** Open, high, low, close and volume. */
  type Prices(==, !new)

  datatype Bar = Bar(time: int, timeClose: int, prices: Prices)

  datatype ChartRow = ChartRow(time: int, prices: Prices)

  // ----- the corpus

  /** The prices of the first row at `t`. */
  ghost function FirstSeen(rows: seq<ChartRow>, t: int): Option<Prices> {
    if rows == [] then None
    else
      var before := FirstSeen(rows[..|rows| - 1], t);
      if before.None? && rows[|rows| - 1].time == t then Some(rows[|rows| - 1].prices) else before
  }

  /** Rows that disagree with the first row at their time. */
  ghost function Disagreeing(rows: seq<ChartRow>): nat {
    if rows == [] then 0
    else
      var front, last := rows[..|rows| - 1], rows[|rows| - 1];
      Disagreeing(front) + if FirstSeen(front, last.time).Some? && FirstSeen(front, last.time).value != last.prices then 1 else 0
  }

  function AllRows(charts: seq<seq<ChartRow>>): seq<ChartRow> {
    if charts == [] then [] else AllRows(charts[..|charts| - 1]) + charts[|charts| - 1]
  }

  ghost predicate CorpusOf(rows: seq<ChartRow>, bars: map<int, Prices>) {
    forall t :: (t in bars <==> FirstSeen(rows, t).Some?) && (t in bars ==> bars[t] == FirstSeen(rows, t).value)
  }

  lemma FirstSeenAppend(rows: seq<ChartRow>, row: ChartRow, t: int)
    ensures FirstSeen(rows + [row], t) ==
            if FirstSeen(rows, t).None? && row.time == t then Some(row.prices) else FirstSeen(rows, t)
    ensures Disagreeing(rows + [row]) == Disagreeing(rows)
              + if FirstSeen(rows, row.time).Some? && FirstSeen(rows, row.time).value != row.prices then 1 else 0
  {
  }

  /** The accumulation loops: the first prices seen for a time are kept, every later row that
      disagrees is counted as a conflict, and no row goes uncounted. */
  method LoadVisibleBars(charts: seq<seq<ChartRow>>) returns (bars: map<int, Prices>, rowsLoaded: nat, conflicts: nat)
    ensures CorpusOf(AllRows(charts), bars)
    ensures conflicts == Disagreeing(AllRows(charts))
    ensures rowsLoaded + conflicts == |AllRows(charts)|
  {
    bars, rowsLoaded, conflicts := map[], 0, 0;
    ghost var seen: seq<ChartRow> := [];
    for c := 0 to |charts|
      invariant seen == AllRows(charts[..c])
      invariant CorpusOf(seen, bars) && conflicts == Disagreeing(seen) && rowsLoaded + conflicts == |seen|
    {
      ghost var before := seen;
      for i := 0 to |charts[c]|
        invariant seen == before + charts[c][..i]
        invariant CorpusOf(seen, bars) && conflicts == Disagreeing(seen) && rowsLoaded + conflicts == |seen|
      {
        var row := charts[c][i];
        CorpusStep(seen, bars, row);
        assert charts[c][..i + 1] == charts[c][..i] + [row];
        assert before + charts[c][..i + 1] == seen + [row];
        seen := seen + [row];
        if row.time in bars && bars[row.time] != row.prices {
          conflicts := conflicts + 1;
          continue;
        }
        bars := bars[row.time := row.prices];
        rowsLoaded := rowsLoaded + 1;
      }
      assert charts[c][..|charts[c]|] == charts[c];
      assert charts[..c + 1][..c] == charts[..c];
    }
    assert charts[..|charts|] == charts;
  }

  lemma CorpusStep(rows: seq<ChartRow>, bars: map<int, Prices>, row: ChartRow)
    requires CorpusOf(rows, bars)
    ensures row.time in bars && bars[row.time] != row.prices ==>
              CorpusOf(rows + [row], bars) && Disagreeing(rows + [row]) == Disagreeing(rows) + 1
    ensures !(row.time in bars && bars[row.time] != row.prices) ==>
              CorpusOf(rows + [row], bars[row.time := row.prices]) && Disagreeing(rows + [row]) == Disagreeing(rows)
  {
    forall t
      ensures FirstSeen(rows + [row], t) ==
              if FirstSeen(rows, t).None? && row.time == t then Some(row.prices) else FirstSeen(rows, t)
    {
      FirstSeenAppend(rows, row, t);
    }
    FirstSeenAppend(rows, row, row.time);
  }

  // ----- patching provider bars

  function Patch(bar: Bar, visible: map<int, Prices>): Bar {
    if bar.time in visible then bar.(prices := visible[bar.time]) else bar
  }

  ghost function Hits(bars: seq<Bar>, visible: map<int, Prices>): nat {
    if bars == [] then 0 else Hits(bars[..|bars| - 1], visible) + if bars[|bars| - 1].time in visible then 1 else 0
  }

  /** Every provider bar keeps its place and times; its prices are the corpus prices where there are
      any, and the count is of the bars hit. */
  method MergeVisibleBars(provider: seq<Bar>, visible: map<int, Prices>) returns (patched: seq<Bar>, count: nat)
    ensures |patched| == |provider| && forall i :: 0 <= i < |provider| ==> patched[i] == Patch(provider[i], visible)
    ensures count == Hits(provider, visible)
  {
    if visible == map[] {
      NoHits(provider);
      return provider, 0;
    }
    patched, count := [], 0;
    for i := 0 to |provider|
      invariant |patched| == i && forall k :: 0 <= k < i ==> patched[k] == Patch(provider[k], visible)
      invariant count == Hits(provider[..i], visible)
    {
      var bar := provider[i];
      assert provider[..i + 1][..i] == provider[..i];
      if bar.time !in visible {
        patched := patched + [bar];
        continue;
      }
      patched := patched + [bar.(prices := visible[bar.time])];
      count := count + 1;
    }
    assert provider[..|provider|] == provider;
  }

  lemma {:induction false} NoHits(bars: seq<Bar>)
    ensures Hits(bars, map[]) == 0
  {
    if bars != [] {
      NoHits(bars[..|bars| - 1]);
    }
  }

  // ----- the chart on top

  predicate ByTime(a: Bar, b: Bar) {
    a.time <= b.time
  }

  function ChartBar(row: ChartRow, duration: int): Bar {
    Bar(row.time, row.time + duration, row.prices)
  }

  function ChartBars(rows: seq<ChartRow>, duration: int): (bars: seq<Bar>)
    ensures |bars| == |rows| && forall i :: 0 <= i < |rows| ==> bars[i] == ChartBar(rows[i], duration)
  {
    seq(|rows|, i requires 0 <= i < |rows| => ChartBar(rows[i], duration))
  }

  function Outside(times: set<int>): Bar -> bool {
    (bar: Bar) => bar.time !in times
  }

  function ChartTimes(rows: seq<ChartRow>): set<int> {
    set row | row in rows :: row.time
  }

  /** `_merge_tv_visible_bars`: provider bars the chart does not show, and the chart's bars, by time. */
  function OverlayChart(provider: seq<Bar>, rows: seq<ChartRow>, duration: int): seq<Bar> {
    SortBy(Filter(provider, Outside(ChartTimes(rows))) + ChartBars(rows, duration), ByTime)
  }

  method MergeTvVisibleBars(provider: seq<Bar>, rows: seq<ChartRow>, duration: int) returns (merged: seq<Bar>)
    ensures merged == OverlayChart(provider, rows, duration)
  {
    var visible: seq<Bar> := [];
    for i := 0 to |rows|
      invariant visible == ChartBars(rows[..i], duration)
    {
      visible := visible + [ChartBar(rows[i], duration)];
    }
    assert rows[..|rows|] == rows;
    var shown := set bar | bar in visible :: bar.time;
    ShownTimes(rows, duration);
    merged := Filter(provider, Outside(shown));
    merged := merged + visible;
    merged := SortBy(merged, ByTime);
  }

  lemma ShownTimes(rows: seq<ChartRow>, duration: int)
    ensures (set bar | bar in ChartBars(rows, duration) :: bar.time) == ChartTimes(rows)
  {
    var bars := ChartBars(rows, duration);
    forall t
      ensures t in (set bar | bar in bars :: bar.time) <==> t in ChartTimes(rows)
    {
      if t in ChartTimes(rows) {
        var i :| 0 <= i < |rows| && rows[i].time == t;
        assert bars[i] in bars;
      }
      if bar :| bar in bars && bar.time == t {
        var i :| 0 <= i < |bars| && bars[i] == bar;
        assert rows[i] in rows;
      }
    }
  }

  ghost predicate DistinctTimes(bars: seq<Bar>) {
    forall i, j :: 0 <= i < j < |bars| ==> bars[i].time != bars[j].time
  }

  ghost predicate StrictlyAscending(bars: seq<Bar>) {
    forall i, j :: 0 <= i < j < |bars| ==> bars[i].time < bars[j].time
  }

  lemma {:induction false} FilterDistinct(bars: seq<Bar>, p: Bar -> bool)
    requires DistinctTimes(bars)
    ensures DistinctTimes(Filter(bars, p))
  {
    if bars != [] {
      FilterDistinct(bars[1..], p);
      var rest := Filter(bars[1..], p);
      forall j | 0 <= j < |rest|
        ensures rest[j].time != bars[0].time
      {
        assert rest[j] in bars[1..];
        var k :| 0 <= k < |bars[1..]| && bars[1..][k] == rest[j];
        assert bars[k + 1] == rest[j];
      }
    }
  }

  lemma MergedDistinct(provider: seq<Bar>, rows: seq<ChartRow>, duration: int)
    requires DistinctTimes(provider) && (forall i, j :: 0 <= i < j < |rows| ==> rows[i].time != rows[j].time)
    ensures DistinctTimes(Filter(provider, Outside(ChartTimes(rows))) + ChartBars(rows, duration))
  {
    var kept := Filter(provider, Outside(ChartTimes(rows)));
    var shown := ChartBars(rows, duration);
    FilterDistinct(provider, Outside(ChartTimes(rows)));
    forall i, j | 0 <= i < |kept| && 0 <= j < |shown|
      ensures kept[i].time != shown[j].time
    {
      assert kept[i] in kept && rows[j] in rows;
    }
  }

  lemma SortedDistinctAscends(bars: seq<Bar>, sorted: seq<Bar>)
    requires DistinctTimes(bars) && multiset(sorted) == multiset(bars) && SortedBy(sorted, ByTime)
    ensures StrictlyAscending(sorted)
  {
    PermutationNoRepeats(bars, sorted);
    MultisetMembers(sorted, bars);
    forall i, j | 0 <= i < j < |sorted|
      ensures sorted[i].time < sorted[j].time
    {
      assert sorted[i] in sorted && sorted[j] in sorted && sorted[i] != sorted[j];
      var a :| 0 <= a < |bars| && bars[a] == sorted[i];
      var b :| 0 <= b < |bars| && bars[b] == sorted[j];
      assert a != b;
    }
  }

  /** The merged bar at a time: the chart's if it shows the time; else the provider's, with the
      corpus prices when the corpus saw the time. */
  ghost predicate LayeredAt(provider: seq<Bar>, visible: map<int, Prices>, rows: seq<ChartRow>, duration: int, bar: Bar) {
    || (exists row :: row in rows && bar == Bar(row.time, row.time + duration, row.prices))
    || ((forall row :: row in rows ==> row.time != bar.time) && exists p :: p in provider && bar == Patch(p, visible))
  }

  /** With distinct provider times and distinct chart times, corpus patching followed by the chart
      overlay is strictly ascending over the union of the two time sets, and each bar is taken from
      the topmost layer that has its time. */
  lemma LayeredOverlay(provider: seq<Bar>, visible: map<int, Prices>, patched: seq<Bar>, rows: seq<ChartRow>, duration: int)
    requires DistinctTimes(provider) && (forall i, j :: 0 <= i < j < |rows| ==> rows[i].time != rows[j].time)
    requires |patched| == |provider| && forall i :: 0 <= i < |provider| ==> patched[i] == Patch(provider[i], visible)
    ensures var merged := OverlayChart(patched, rows, duration);
            && StrictlyAscending(merged)
            && (forall bar :: bar in merged <==> LayeredAt(provider, visible, rows, duration, bar))
  {
    var times := ChartTimes(rows);
    var parts := Filter(patched, Outside(times)) + ChartBars(rows, duration);
    var merged := OverlayChart(patched, rows, duration);
    MergedDistinct(patched, rows, duration);
    SortSorts(parts, ByTime);
    MultisetMembers(merged, parts);
    SortedDistinctAscends(parts, merged);
    forall bar
      ensures bar in merged <==> LayeredAt(provider, visible, rows, duration, bar)
    {
      LayerMembers(provider, visible, patched, rows, duration, bar);
    }
  }

  lemma LayerMembers(provider: seq<Bar>, visible: map<int, Prices>, patched: seq<Bar>, rows: seq<ChartRow>, duration: int, bar: Bar)
    requires |patched| == |provider| && forall i :: 0 <= i < |provider| ==> patched[i] == Patch(provider[i], visible)
    ensures bar in Filter(patched, Outside(ChartTimes(rows))) + ChartBars(rows, duration)
            <==> LayeredAt(provider, visible, rows, duration, bar)
  {
  }

  /** The union of the time sets, no more and no less. */
  lemma LayeredTimes(provider: seq<Bar>, visible: map<int, Prices>, rows: seq<ChartRow>, duration: int, t: int)
    ensures (exists bar :: LayeredAt(provider, visible, rows, duration, bar) && bar.time == t) <==>
            (exists row :: row in rows && row.time == t) || exists p :: p in provider && p.time == t
  {
    if t in ChartTimes(rows) {
      var row :| row in rows && row.time == t;
      assert LayeredAt(provider, visible, rows, duration, Bar(t, t + duration, row.prices));
    } else if p :| p in provider && p.time == t {
      assert LayeredAt(provider, visible, rows, duration, Patch(p, visible));
    }
  }

  // ----- the overlay step of a calculation

  /** How many bars open at a time the corpus saw. */
  ghost function SeenCount(bars: seq<Bar>, corpus: seq<ChartRow>): nat {
    if bars == [] then 0
    else SeenCount(bars[..|bars| - 1], corpus) + if FirstSeen(corpus, bars[|bars| - 1].time).Some? then 1 else 0
  }

  lemma {:induction false} HitsAreSeen(bars: seq<Bar>, corpus: seq<ChartRow>, visible: map<int, Prices>)
    requires CorpusOf(corpus, visible)
    ensures Hits(bars, visible) == SeenCount(bars, corpus)
  {
    if bars != [] {
      HitsAreSeen(bars[..|bars| - 1], corpus, visible);
    }
  }

  /** A provider bar with the first prices that the corpus saw at its time, if it saw any. */
  ghost function FromCorpus(bar: Bar, corpus: seq<ChartRow>): Bar {
    match FirstSeen(corpus, bar.time)
    case Some(prices) => bar.(prices := prices)
    case None => bar
  }

  /** The three layers: the chart's bar if it shows the time; else the provider's, with the first
      prices the corpus saw; else the provider's own. */
  ghost predicate TopLayer(provider: seq<Bar>, corpus: seq<ChartRow>, rows: seq<ChartRow>, duration: int, bar: Bar) {
    || (exists row :: row in rows && bar == Bar(row.time, row.time + duration, row.prices))
    || ((forall row :: row in rows ==> row.time != bar.time) && exists p :: p in provider && bar == FromCorpus(p, corpus))
  }

  lemma TopLayerIsLayeredAt(provider: seq<Bar>, corpus: seq<ChartRow>, visible: map<int, Prices>,
                            rows: seq<ChartRow>, duration: int, bar: Bar)
    requires CorpusOf(corpus, visible)
    ensures TopLayer(provider, corpus, rows, duration, bar) <==> LayeredAt(provider, visible, rows, duration, bar)
  {
    assert forall p: Bar :: FromCorpus(p, corpus) == Patch(p, visible);
  }

  ghost predicate DistinctRows(rows: seq<ChartRow>) {
    forall i, j :: 0 <= i < j < |rows| ==> rows[i].time != rows[j].time
  }

  datatype Overlay = Overlay(bars: seq<Bar>, patched: nat, rowsLoaded: nat, conflicts: nat)

  datatype OverlayError = SealedStrategyBars

  /** The overlay part of `load_calculation_bars`: nothing for provider-only bars, an error for the sealed
      bars of a strategy, and otherwise corpus and chart over the provider. */
  method OverlayBars(provider: seq<Bar>, charts: seq<seq<ChartRow>>, rows: seq<ChartRow>, duration: int,
                     providerOnly: bool, strategy: bool)
    returns (r: Result<Overlay, OverlayError>)
    ensures r.Err? <==> !providerOnly && strategy
    ensures providerOnly ==> r == Ok(Overlay(provider, 0, 0, 0))
    ensures r.Ok? && !providerOnly ==>
              && r.value.conflicts == Disagreeing(AllRows(charts))
              && r.value.rowsLoaded + r.value.conflicts == |AllRows(charts)|
              && r.value.patched == SeenCount(provider, AllRows(charts))
    ensures r.Ok? && !providerOnly && DistinctTimes(provider) && DistinctRows(rows) ==>
              && StrictlyAscending(r.value.bars)
              && forall bar :: bar in r.value.bars <==> TopLayer(provider, AllRows(charts), rows, duration, bar)
  {
    if providerOnly {
      return Ok(Overlay(provider, 0, 0, 0));
    }
    if strategy {
      return Err(SealedStrategyBars);
    }
    var visible, rowsLoaded, conflicts := LoadVisibleBars(charts);
    var patched, count := MergeVisibleBars(provider, visible);
    var merged := MergeTvVisibleBars(patched, rows, duration);
    HitsAreSeen(provider, AllRows(charts), visible);
    if DistinctTimes(provider) && DistinctRows(rows) {
      LayeredOverlay(provider, visible, patched, rows, duration);
      forall bar
        ensures bar in merged <==> TopLayer(provider, AllRows(charts), rows, duration, bar)
      {
        TopLayerIsLayeredAt(provider, AllRows(charts), visible, rows, duration, bar);
      }
    }
    r := Ok(Overlay(merged, count, rowsLoaded, conflicts));
  }
}
