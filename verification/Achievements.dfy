/** The achievement engine of openpine/achievements/engine.py: derived statistics, an append-only
    unlock log, and an event log, updated by `refresh` and `record_event`. */
module Achievements {
  import opened Prelude
  import opened Sorting

  datatype Achievement = Achievement(id: string, metric: string, target: real, inverted: bool)

  datatype Unlock = Unlock(id: string, finalValue: real)

  datatype Event = Event(kind: string, source: Option<string>, value: real)

  /** What a metric's SQL gives: it may fail (a table is missing) or give one value, NULL counting as 0. */
  datatype QueryResult = Unreadable | Scalar(value: real)

  /** The authoritative tables, with the event log they are read together with. */
  type Sources = (string, seq<Event>) -> QueryResult

  /** Larger is better, unless the achievement is inverted. */
  predicate Met(a: Achievement, value: real) {
    if a.inverted then value <= a.target else value >= a.target
  }

  ghost predicate Catalog(catalog: seq<Achievement>) {
    forall i, j :: 0 <= i < j < |catalog| ==> catalog[i].id != catalog[j].id
  }

  ghost function Ids(log: seq<Unlock>): set<string> {
    set u | u in log :: u.id
  }

  // ----- specification

  ghost predicate Qualifies(a: Achievement, unlocked: set<string>, stats: map<string, real>) {
    a.id !in unlocked && a.metric in stats && Met(a, stats[a.metric])
  }

  ghost function NewlyMet(catalog: seq<Achievement>, unlocked: set<string>, stats: map<string, real>): set<string> {
    set a | a in catalog && Qualifies(a, unlocked, stats) :: a.id
  }

  /** Whatever is unlocked, everything easier in the same direction is unlocked too. */
  ghost predicate Closed(catalog: seq<Achievement>, unlocked: set<string>) {
    forall a, b :: (a in catalog && b in catalog && a.metric == b.metric && a.inverted == b.inverted && a.id in unlocked)
                   ==> (if a.inverted then a.target <= b.target else a.target >= b.target) ==> b.id in unlocked
  }

  lemma SameIdSameEntry(catalog: seq<Achievement>, a: Achievement, b: Achievement)
    requires Catalog(catalog) && a in catalog && b in catalog && a.id == b.id
    ensures a == b
  {
  }

  /** One unlock check keeps the unlocked set closed, for any statistics at all. */
  lemma CheckKeepsClosed(catalog: seq<Achievement>, unlocked: set<string>, stats: map<string, real>)
    requires Catalog(catalog) && Closed(catalog, unlocked)
    ensures Closed(catalog, unlocked + NewlyMet(catalog, unlocked, stats))
  {
  }

  /** Checking the same statistics again unlocks nothing. */
  lemma SecondCheckIsIdle(catalog: seq<Achievement>, unlocked: set<string>, stats: map<string, real>)
    ensures NewlyMet(catalog, unlocked + NewlyMet(catalog, unlocked, stats), stats) == {}
  {
  }

  /** The unlocked set after a history of checks, each with whatever statistics it was given. */
  ghost function UnlockedAfter(catalog: seq<Achievement>, checks: seq<map<string, real>>): set<string> {
    if checks == [] then {}
    else
      var before := UnlockedAfter(catalog, checks[..|checks| - 1]);
      before + NewlyMet(catalog, before, checks[|checks| - 1])
  }

  lemma {:induction false} HistoryClosed(catalog: seq<Achievement>, checks: seq<map<string, real>>)
    requires Catalog(catalog)
    ensures Closed(catalog, UnlockedAfter(catalog, checks))
  {
    if checks != [] {
      HistoryClosed(catalog, checks[..|checks| - 1]);
      CheckKeepsClosed(catalog, UnlockedAfter(catalog, checks[..|checks| - 1]), checks[|checks| - 1]);
    }
  }

  /** An achievement is unlocked by a history exactly when some check in it met the target. */
  lemma {:induction false} UnlockedExactly(catalog: seq<Achievement>, checks: seq<map<string, real>>, a: Achievement)
    requires Catalog(catalog) && a in catalog
    ensures a.id in UnlockedAfter(catalog, checks) <==>
            exists k :: 0 <= k < |checks| && a.metric in checks[k]
              && if a.inverted then checks[k][a.metric] <= a.target else checks[k][a.metric] >= a.target
  {
    if checks != [] {
      var n := |checks| - 1;
      var front := checks[..n];
      var before := UnlockedAfter(catalog, front);
      UnlockedExactly(catalog, front, a);
      assert forall k :: 0 <= k < n ==> front[k] == checks[k];
      if a.id in NewlyMet(catalog, before, checks[n]) {
        var x :| x in catalog && Qualifies(x, before, checks[n]) && x.id == a.id;
        SameIdSameEntry(catalog, a, x);
      }
      if a.metric in checks[n] && Met(a, checks[n][a.metric]) && a.id !in before {
        assert Qualifies(a, before, checks[n]);
      }
    }
  }

  // ----- the engine

  const METRICS: seq<string> := [
    "bars_loaded", "bars_cached", "trades", "symbols", "exchanges", "strategies", "udt_strategies",
    "backtests", "parity_matches", "pnl_peak_pct", "max_drawdown_pct", "sharpe", "winrate_pct",
    "speed_bars_sec", "speed_bars_min", "live_uptime_h", "ast_nodes", "multi_tf_max", "has_tf_1m",
    "has_tf_1d", "both_sides", "mcap_top10_count", "ruin_recovery", "shipped_lib", "secret_buy_zero",
    "secret_nuclear"]

  /** The metrics whose SQL could be read, with their values. */
  ghost function Readable(metrics: seq<string>, sources: Sources, events: seq<Event>): map<string, real> {
    map m | m in metrics && sources(m, events).Scalar? :: sources(m, events).value
  }

  /** The rows one metric's value inserts, in catalog order. */
  function Gained(rows: seq<Achievement>, value: real): seq<Unlock> {
    if rows == [] then []
    else
      var last := rows[|rows| - 1];
      Gained(rows[..|rows| - 1], value) + if Met(last, value) then [Unlock(last.id, value)] else []
  }

  lemma {:induction false} GainedExactly(rows: seq<Achievement>, value: real, u: Unlock)
    ensures u in Gained(rows, value) <==> exists a :: a in rows && Met(a, value) && u == Unlock(a.id, value)
  {
    if rows != [] {
      var front, last := rows[..|rows| - 1], rows[|rows| - 1];
      assert rows == front + [last];
      GainedExactly(front, value, u);
    }
  }

  /** One row per achievement. */
  ghost predicate DistinctIds(log: seq<Unlock>) {
    forall i, j :: 0 <= i < j < |log| ==> log[i].id != log[j].id
  }

  lemma {:induction false} GainedDistinct(rows: seq<Achievement>, value: real)
    requires Catalog(rows)
    ensures DistinctIds(Gained(rows, value))
  {
    if rows != [] {
      var front, last := rows[..|rows| - 1], rows[|rows| - 1];
      GainedDistinct(front, value);
      var log := Gained(front, value);
      forall i | 0 <= i < |log|
        ensures log[i].id != last.id
      {
        GainedExactly(front, value, log[i]);
        var a :| a in front && log[i] == Unlock(a.id, value);
        var k :| 0 <= k < |front| && front[k] == a;
        assert rows[k] == a;
      }
    }
  }

  /** The rows of one metric that are not unlocked yet: `NOT IN` the log, which is all that keeps the
      log free of repeats, since a NULL user never conflicts on the primary key. */
  function IsLocked(metric: string, unlocked: set<string>): Achievement -> bool {
    (a: Achievement) => a.metric == metric && a.id !in unlocked
  }

  lemma {:induction false} FilterCatalog(catalog: seq<Achievement>, p: Achievement -> bool)
    requires Catalog(catalog)
    ensures Catalog(Filter(catalog, p))
  {
    if catalog != [] {
      FilterCatalog(catalog[1..], p);
      var rest := Filter(catalog[1..], p);
      forall j | 0 <= j < |rest|
        ensures rest[j].id != catalog[0].id
      {
        assert rest[j] in catalog[1..];
        var k :| 0 <= k < |catalog[1..]| && catalog[1..][k] == rest[j];
        assert catalog[k + 1] == rest[j];
      }
    }
  }

  /** Every row is a known achievement whose target its value met. */
  ghost predicate Earned(catalog: seq<Achievement>, log: seq<Unlock>) {
    forall u :: u in log ==> exists a :: a in catalog && a.id == u.id && Met(a, u.finalValue)
  }

  /** One metric's inserts, on the whole log. */
  lemma MetricStep(catalog: seq<Achievement>, log: seq<Unlock>, metric: string, value: real)
    requires Catalog(catalog) && DistinctIds(log) && Earned(catalog, log)
    ensures var log' := log + Gained(Filter(catalog, IsLocked(metric, Ids(log))), value);
            && DistinctIds(log') && Earned(catalog, log')
            && Ids(log') == Ids(log) + NewlyMet(catalog, Ids(log), map[metric := value])
  {
    var rows := Filter(catalog, IsLocked(metric, Ids(log)));
    var more := Gained(rows, value);
    FilterCatalog(catalog, IsLocked(metric, Ids(log)));
    GainedDistinct(rows, value);
    forall u
      ensures u in more <==> exists a :: a in rows && Met(a, value) && u == Unlock(a.id, value)
    {
      GainedExactly(rows, value, u);
    }
    forall i, j | 0 <= i < |log| && 0 <= j < |more|
      ensures log[i].id != more[j].id
    {
      assert log[i] in log && more[j] in more;
    }
    var log' := log + more;
    forall id
      ensures id in Ids(log') <==> id in Ids(log) || id in NewlyMet(catalog, Ids(log), map[metric := value])
    {
      if id in Ids(log') && id !in Ids(log) {
        var u :| u in log' && u.id == id;
        assert u in more;
        var a :| a in rows && Met(a, value) && u == Unlock(a.id, value);
        assert Qualifies(a, Ids(log), map[metric := value]);
      }
      if id in NewlyMet(catalog, Ids(log), map[metric := value]) {
        var a :| a in catalog && Qualifies(a, Ids(log), map[metric := value]) && a.id == id;
        assert a in rows && Unlock(a.id, value) in more;
        assert Unlock(a.id, value) in log';
      }
    }
  }

  /** Metrics do not interfere: checking them one after another is checking them together. */
  lemma MetricsAddUp(catalog: seq<Achievement>, unlocked: set<string>, done: map<string, real>, metric: string, value: real)
    requires Catalog(catalog) && metric !in done
    ensures var before := unlocked + NewlyMet(catalog, unlocked, done);
            before + NewlyMet(catalog, before, map[metric := value]) ==
            unlocked + NewlyMet(catalog, unlocked, done[metric := value])
  {
  }

  /** The log grew by rows with the listed ids, in that order. */
  ghost predicate Appended(before: seq<Unlock>, after: seq<Unlock>, ids: seq<string>) {
    && before <= after && |after| == |before| + |ids|
    && forall i :: 0 <= i < |ids| ==> after[|before| + i].id == ids[i]
  }

  lemma AppendedTwice(a: seq<Unlock>, b: seq<Unlock>, c: seq<Unlock>, ids: seq<string>, more: seq<string>)
    requires Appended(a, b, ids) && Appended(b, c, more)
    ensures Appended(a, c, ids + more)
  {
  }

  /** What a check returns is what it newly unlocked, each once. */
  lemma ReturnedExactly(before: seq<Unlock>, after: seq<Unlock>, ids: seq<string>, newly: set<string>)
    requires Appended(before, after, ids) && DistinctIds(after)
    requires Ids(after) == Ids(before) + newly && newly !! Ids(before)
    ensures NoRepeats(ids) && (ids == [] <==> newly == {}) && forall id :: id in ids <==> id in newly
  {
    assert forall j :: 0 <= j < |before| ==> before[j] == after[j] && before[j].id in Ids(before);
    forall id | id in ids
      ensures id in newly
    {
      var i :| 0 <= i < |ids| && ids[i] == id;
      var u := after[|before| + i];
      assert u in after;
      assert forall j :: 0 <= j < |before| ==> before[j] == after[j] && after[j].id != u.id;
      assert u.id !in Ids(before);
    }
    forall id | id in newly
      ensures id in ids
    {
      assert id in Ids(after);
      var k :| 0 <= k < |after| && after[k].id == id;
      assert ids[k - |before|] == id;
    }
    forall i, j | 0 <= i < j < |ids|
      ensures ids[i] != ids[j]
    {
      assert after[|before| + i].id == ids[i] && after[|before| + j].id == ids[j];
    }
    if ids != [] {
      assert ids[0] in ids;
    }
  }

  class AchievementEngine {
    const catalog: seq<Achievement>
    const metrics: seq<string>
    var stats: map<string, real>
    var unlocks: seq<Unlock>
    var events: seq<Event>
    ghost var checks: seq<map<string, real>>   // the statistics of every check so far

    constructor (catalog: seq<Achievement>, metrics: seq<string> := METRICS)
      requires Catalog(catalog)
      ensures this.catalog == catalog && this.metrics == metrics
      ensures unlocks == [] && events == [] && stats == map[] && checks == [] && Valid()
    {
      this.catalog, this.metrics := catalog, metrics;
      unlocks, events, stats, checks := [], [], map[], [];
    }

    /** At most one row per achievement, each of a known achievement whose target its value met, closed
        under easier targets, and exactly what the checks so far unlock. */
    ghost predicate Valid()
      reads this
    {
      && Catalog(catalog) && DistinctIds(unlocks) && Earned(catalog, unlocks) && Closed(catalog, Ids(unlocks))
      && Ids(unlocks) == UnlockedAfter(catalog, checks)
    }

    /** An achievement is unlocked exactly when some check of the engine's history met its target. */
    lemma UnlockedWhenMet(a: Achievement)
      requires Valid() && a in catalog
      ensures a.id in Ids(unlocks) <==>
              exists k :: 0 <= k < |checks| && a.metric in checks[k]
                && if a.inverted then checks[k][a.metric] <= a.target else checks[k][a.metric] >= a.target
    {
      UnlockedExactly(catalog, checks, a);
    }

    /** Rewrites the statistics that can be read; the others keep their value. */
    method RecomputeStats(sources: Sources) returns (results: map<string, real>)
      modifies this`stats
      ensures results == Readable(metrics, sources, events)
      ensures stats == old(stats) + results
    {
      results := map[];
      for i := 0 to |metrics|
        invariant results == Readable(metrics[..i], sources, events)
        invariant stats == old(stats) + results
      {
        var metric := metrics[i];
        var row := sources(metric, events);
        assert metrics[..i + 1] == metrics[..i] + [metric];
        if row.Unreadable? {
          continue;
        }
        stats, results := stats[metric := row.value], results[metric := row.value];
      }
      assert metrics[..|metrics|] == metrics;
    }

    /** Inserts every locked achievement of the metric that the value meets. */
    method UnlockMetric(metric: string, value: real) returns (unlocked: seq<string>)
      modifies this`unlocks
      ensures unlocks == old(unlocks) + Gained(Filter(catalog, IsLocked(metric, Ids(old(unlocks)))), value)
      ensures Appended(old(unlocks), unlocks, unlocked)
    {
      var taken := set u | u in unlocks :: u.id;
      var rows := Filter(catalog, IsLocked(metric, taken));
      unlocked := [];
      for k := 0 to |rows|
        invariant unlocks == old(unlocks) + Gained(rows[..k], value)
        invariant Appended(old(unlocks), unlocks, unlocked)
      {
        assert rows[..k + 1][..k] == rows[..k];
        if Met(rows[k], value) {
          unlocks := unlocks + [Unlock(rows[k].id, value)];
          unlocked := unlocked + [rows[k].id];
        }
      }
      assert rows[..|rows|] == rows;
    }

    /** The unlock check: the log only grows, and by exactly what the given statistics newly meet. */
    method CheckUnlocks(given: map<string, real>) returns (unlocked: seq<string>)
      requires Valid()
      modifies this`unlocks, this`checks
      ensures Valid() && checks == old(checks) + [given]
      ensures Appended(old(unlocks), unlocks, unlocked)
      ensures Ids(unlocks) == Ids(old(unlocks)) + NewlyMet(catalog, Ids(old(unlocks)), given)
      ensures NoRepeats(unlocked) && (unlocked == [] <==> NewlyMet(catalog, Ids(old(unlocks)), given) == {})
      ensures forall id :: id in unlocked <==> id in NewlyMet(catalog, Ids(old(unlocks)), given)
    {
      unlocked := UnlockAll(given);
      CheckKeepsClosed(catalog, Ids(old(unlocks)), given);
      ReturnedExactly(old(unlocks), unlocks, unlocked, NewlyMet(catalog, Ids(old(unlocks)), given));
      checks := checks + [given];
      assert checks[..|checks| - 1] == old(checks);
    }

    /** The loop over the metrics. */
    method UnlockAll(given: map<string, real>) returns (unlocked: seq<string>)
      requires Catalog(catalog) && DistinctIds(unlocks) && Earned(catalog, unlocks)
      modifies this`unlocks
      ensures DistinctIds(unlocks) && Earned(catalog, unlocks) && Appended(old(unlocks), unlocks, unlocked)
      ensures Ids(unlocks) == Ids(old(unlocks)) + NewlyMet(catalog, Ids(old(unlocks)), given)
    {
      unlocked := [];
      var remaining := given.Keys;
      ghost var done: map<string, real> := map[];
      ghost var start := Ids(unlocks);
      while remaining != {}
        invariant remaining <= given.Keys && done == map m | m in given && m !in remaining :: given[m]
        invariant DistinctIds(unlocks) && Earned(catalog, unlocks)
        invariant Appended(old(unlocks), unlocks, unlocked)
        invariant Ids(unlocks) == start + NewlyMet(catalog, start, done)
        decreases |remaining|
      {
        assert (forall m :: m !in remaining) ==> remaining == {};
        var metric :| metric in remaining;
        MetricStep(catalog, unlocks, metric, given[metric]);
        MetricsAddUp(catalog, start, done, metric, given[metric]);
        ghost var log := unlocks;
        var more := UnlockMetric(metric, given[metric]);
        AppendedTwice(old(unlocks), log, unlocks, unlocked, more);
        unlocked, remaining, done := unlocked + more, remaining - {metric}, done[metric := given[metric]];
      }
      assert done == given;
    }

    /** Recomputes and checks; refreshing again from unchanged sources would unlock nothing. */
    method Refresh(sources: Sources) returns (unlocked: seq<string>)
      requires Valid()
      modifies this`stats, this`unlocks, this`checks
      ensures Valid() && Appended(old(unlocks), unlocks, unlocked)
      ensures checks == old(checks) + [Readable(metrics, sources, events)]
      ensures forall id :: id in unlocked <==> id in NewlyMet(catalog, Ids(old(unlocks)), Readable(metrics, sources, events))
      ensures unlocked == [] <==> NewlyMet(catalog, Ids(old(unlocks)), Readable(metrics, sources, events)) == {}
      ensures stats == old(stats) + Readable(metrics, sources, events)
      ensures Ids(unlocks) == Ids(old(unlocks)) + NewlyMet(catalog, Ids(old(unlocks)), Readable(metrics, sources, events))
      ensures NewlyMet(catalog, Ids(unlocks), Readable(metrics, sources, events)) == {}
    {
      var results := RecomputeStats(sources);
      unlocked := CheckUnlocks(results);
      SecondCheckIsIdle(catalog, Ids(old(unlocks)), results);
    }

    /** The second of two refreshes from unchanged sources unlocks nothing. */
    method RefreshTwice(sources: Sources) returns (first: seq<string>, second: seq<string>)
      requires Valid()
      modifies this`stats, this`unlocks, this`checks
      ensures Valid() && second == [] && Appended(old(unlocks), unlocks, first)
    {
      first := Refresh(sources);
      ghost var between := unlocks;
      second := Refresh(sources);
      assert unlocks == between;
    }

    /** Appends the event, recomputes everything, and checks only the event's own metric; an event
        type that is no readable metric is checked with 0. */
    method RecordEvent(event: Event, sources: Sources) returns (unlocked: seq<string>)
      requires Valid()
      modifies this
      ensures Valid() && Appended(old(unlocks), unlocks, unlocked) && events == old(events) + [event]
      ensures var read := Readable(metrics, sources, events);
              var value := if event.kind in read then read[event.kind] else 0.0;
              && stats == old(stats) + read && checks == old(checks) + [map[event.kind := value]]
              && Ids(unlocks) == Ids(old(unlocks)) + NewlyMet(catalog, Ids(old(unlocks)), map[event.kind := value])
    {
      events := events + [event];
      var results := RecomputeStats(sources);
      unlocked := CheckUnlocks(map[event.kind := if event.kind in results then results[event.kind] else 0.0]);
    }
  }
}
