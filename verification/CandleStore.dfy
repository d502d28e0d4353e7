/** The candle store of openpine/data/candle_storage.py: monthly partition files behind a table of
    manifests whose min/max open times prune reads. */
module CandleStore {
  import opened Calendar
  import opened Prelude
  import opened Sorting

  // ----- data

  type Quote(==, !new)

  datatype Bar = Bar(time: int, timeClose: int, quote: Quote)

  datatype Row = Row(openTime: int, closeTime: int, quote: Quote)

  datatype Identity = Identity(exchange: string, market: string, symbol: string, priceType: string, timeframe: string)

  /** `part-{ts}.parquet`, or the zero-padded form when that reads differently. */
  datatype PartName = PartName(ts: int, padded: bool)

  datatype Path = Path(identity: Identity, month: Month, name: PartName)

  /** `m_{now}_{first 8 digits of the file name's SHA-256}` */
  datatype ManifestId = ManifestId(now: int, digest: string)

  datatype Manifest = Manifest(
    id: ManifestId, identity: Identity, path: Path,
    minOpen: int, maxOpen: int, rowCount: nat, active: bool)

  datatype Query = Query(identity: Identity, start: int, end: int)

  datatype Store = Store(files: map<Path, seq<Row>>, table: seq<Manifest>)

  datatype Error = Unavailable | InvalidInstrumentKey

  function ToRow(bar: Bar): Row {
    Row(bar.time, if bar.timeClose != 0 then bar.timeClose else bar.time, bar.quote)
  }

  function ToBar(row: Row): Bar {
    Bar(row.openTime, row.closeTime, row.quote)
  }

  // ----- orders and selections

  predicate ByOpen(a: Row, b: Row) {
    a.openTime <= b.openTime
  }

  predicate ByMinOpen(a: Manifest, b: Manifest) {
    a.minOpen <= b.minOpen
  }

  /** `open_time >= start AND open_time < end` */
  function InWindow(q: Query): Row -> bool {
    (row: Row) => q.start <= row.openTime < q.end
  }

  /** The active manifests of the query's instrument and timeframe. */
  function OfIdentity(q: Query): Manifest -> bool {
    (m: Manifest) => m.identity == q.identity && m.active
  }

  /** The min/max pruning condition. */
  function Overlaps(q: Query): Manifest -> bool {
    (m: Manifest) => m.maxOpen >= q.start && m.minOpen < q.end
  }

  /** The WHERE clause of the manifest query. */
  function Selected(q: Query): Manifest -> bool {
    (m: Manifest) => m.identity == q.identity && m.maxOpen >= q.start && m.minOpen < q.end && m.active
  }

  function InMonth(month: Month): Bar -> bool {
    (bar: Bar) => MonthOf(bar.time) == month
  }

  // ----- writing

  /** One partition write: the bars of one month, and the two clock readings it takes. */
  datatype PartWrite = PartWrite(
    identity: Identity, replace: bool, month: Month, bars: seq<Bar>, ts: int, now: int)

  function Rows(bars: seq<Bar>): (rows: seq<Row>)
    ensures |rows| == |bars|
    ensures forall i :: 0 <= i < |bars| ==> rows[i] == ToRow(bars[i])
  {
    seq(|bars|, i requires 0 <= i < |bars| => ToRow(bars[i]))
  }

  function NameOf(w: PartWrite): PartName {
    PartName(w.ts, w.replace && w.ts < 100_000_000_000)
  }

  function PathOf(w: PartWrite): Path {
    Path(w.identity, w.month, NameOf(w))
  }

  /** What a partition write puts in the store: a file and the manifest for it. */
  datatype Part = Part(manifest: Manifest, rows: seq<Row>)

  /** Sorted rows have their extremes at the ends. */
  function PartOf(w: PartWrite, digest: PartName -> string): (p: Part)
    requires w.bars != []
    ensures Describes(p.manifest, map[p.manifest.path := p.rows])
    ensures p.manifest.identity == w.identity && p.manifest.active && p.manifest.path == PathOf(w)
    ensures p.manifest.id == ManifestId(w.now, digest(NameOf(w)))
    ensures multiset(p.rows) == multiset(Rows(w.bars))
  {
    var rows := SortBy(Rows(w.bars), ByOpen);
    MultisetMembers(rows, Rows(w.bars));
    SortSorts(Rows(w.bars), ByOpen);
    Part(Manifest(ManifestId(w.now, digest(NameOf(w))), w.identity, PathOf(w),
                  rows[0].openTime, rows[|rows| - 1].openTime, |rows|, true),
         rows)
  }

  /** Rows that `INSERT OR REPLACE` deletes: same primary key, or same unique partition path. */
  predicate Collides(x: Manifest, m: Manifest) {
    x.id == m.id || x.path == m.path
  }

  function Survives(m: Manifest): Manifest -> bool {
    (x: Manifest) => !Collides(x, m)
  }

  function InsertOrReplace(table: seq<Manifest>, m: Manifest): seq<Manifest> {
    Filter(table, Survives(m)) + [m]
  }

  function Apply(s: Store, p: Part): Store {
    Store(s.files[p.manifest.path := p.rows], InsertOrReplace(s.table, p.manifest))
  }

  ghost function Run(s: Store, parts: seq<Part>): Store {
    if parts == [] then s else Apply(Run(s, parts[..|parts| - 1]), parts[|parts| - 1])
  }

  // ----- the invariant

  /** The manifest tells the truth about its file. */
  ghost predicate Describes(m: Manifest, files: map<Path, seq<Row>>) {
    && m.path in files && m.path.identity == m.identity
    && var rows := files[m.path];
    && m.rowCount == |rows| > 0
    && SortedBy(rows, ByOpen)
    && m.minOpen == rows[0].openTime && m.maxOpen == rows[|rows| - 1].openTime
  }

  ghost predicate ValidStore(s: Store) {
    && (forall m :: m in s.table ==> Describes(m, s.files))
    && Independent(s.table)
  }

  lemma DescribedExtremes(m: Manifest, files: map<Path, seq<Row>>, row: Row)
    requires Describes(m, files) && row in files[m.path]
    ensures m.minOpen <= row.openTime <= m.maxOpen
  {
  }

  ghost predicate Independent(xs: seq<Manifest>) {
    forall i, j :: 0 <= i < j < |xs| ==> !Collides(xs[i], xs[j])
  }

  lemma IndependentCons(x: Manifest, xs: seq<Manifest>)
    ensures Independent([x] + xs) <==> Independent(xs) && forall y :: y in xs ==> !Collides(x, y)
  {
    var all := [x] + xs;
    if Independent(all) {
      forall i, j | 0 <= i < j < |xs|
        ensures !Collides(xs[i], xs[j])
      {
        assert all[i + 1] == xs[i] && all[j + 1] == xs[j];
      }
      forall y | y in xs
        ensures !Collides(x, y)
      {
        var j :| 0 <= j < |xs| && xs[j] == y;
        assert all[0] == x && all[j + 1] == y;
      }
    }
  }

  lemma {:induction false} FilterIndependent(xs: seq<Manifest>, p: Manifest -> bool)
    requires Independent(xs)
    ensures Independent(Filter(xs, p))
  {
    if xs != [] {
      assert xs == [xs[0]] + xs[1..];
      IndependentCons(xs[0], xs[1..]);
      FilterIndependent(xs[1..], p);
      IndependentCons(xs[0], Filter(xs[1..], p));
    }
  }

  ghost predicate Truthful(p: Part) {
    Describes(p.manifest, map[p.manifest.path := p.rows])
  }

  /** Every write keeps the index truthful, whatever the clock shows: a write that reuses a file
      name also replaces the manifest of the file it overwrites. */
  lemma ApplyKeepsValid(s: Store, p: Part)
    requires ValidStore(s) && Truthful(p)
    ensures ValidStore(Apply(s, p))
  {
    var m, s' := p.manifest, Apply(s, p);
    var kept := Filter(s.table, Survives(m));
    FilterIndependent(s.table, Survives(m));
    forall x | x in s'.table
      ensures Describes(x, s'.files)
    {
      if x in kept {
        assert Describes(x, s.files) && x.path != m.path;
      }
    }
    forall i, j | 0 <= i < j < |s'.table|
      ensures !Collides(s'.table[i], s'.table[j])
    {
      assert s'.table[i] == kept[i] && kept[i] in kept;
      assert j < |kept| ==> s'.table[j] == kept[j];
      assert Survives(m)(kept[i]);
    }
  }

  lemma {:induction false} RunKeepsValid(s: Store, parts: seq<Part>)
    requires ValidStore(s) && forall i :: 0 <= i < |parts| ==> Truthful(parts[i])
    ensures ValidStore(Run(s, parts))
  {
    if parts != [] {
      RunKeepsValid(s, parts[..|parts| - 1]);
      ApplyKeepsValid(Run(s, parts[..|parts| - 1]), parts[|parts| - 1]);
    }
  }

  // ----- reading

  function ListManifests(s: Store, q: Query): seq<Manifest> {
    SortBy(Filter(s.table, Selected(q)), ByMinOpen)
  }

  /** Every active manifest of the identity, in the same order, none pruned. */
  function AllManifests(s: Store, q: Query): seq<Manifest> {
    SortBy(Filter(s.table, OfIdentity(q)), ByMinOpen)
  }

  ghost predicate Present(ms: seq<Manifest>, files: map<Path, seq<Row>>) {
    forall i :: 0 <= i < |ms| ==> ms[i].path in files
  }

  /** The rows in the query window, file after file. */
  ghost function RowsIn(ms: seq<Manifest>, files: map<Path, seq<Row>>, q: Query): seq<Row>
    requires Present(ms, files)
  {
    if ms == [] then []
    else RowsIn(ms[..|ms| - 1], files, q) + Filter(files[ms[|ms| - 1].path], InWindow(q))
  }

  /** The first row of each open time, in order of appearance. */
  ghost function FirstPerTime(rows: seq<Row>): (r: seq<Row>)
    ensures forall x :: x in r ==> x in rows
  {
    if rows == [] then []
    else
      var front, last := FirstPerTime(rows[..|rows| - 1]), rows[|rows| - 1];
      if last.openTime in Times(front) then front else front + [last]
  }

  ghost function Times(rows: seq<Row>): set<int> {
    set row | row in rows :: row.openTime
  }

  ghost function Deduplicated(rows: seq<Row>): seq<Row> {
    SortBy(FirstPerTime(rows), ByOpen)
  }

  function Bars(rows: seq<Row>): (bars: seq<Bar>)
    ensures |bars| == |rows|
    ensures forall i :: 0 <= i < |rows| ==> bars[i] == ToBar(rows[i])
  {
    seq(|rows|, i requires 0 <= i < |rows| => ToBar(rows[i]))
  }

  /** What a reader that opened every file of the identity would return. */
  ghost function FullScan(s: Store, q: Query): Result<seq<Bar>, Error>
    requires Present(AllManifests(s, q), s.files)
  {
    var rows := RowsIn(AllManifests(s, q), s.files, q);
    if rows == [] then Err(Unavailable) else Ok(Bars(Deduplicated(rows)))
  }

  lemma ManifestsPresent(s: Store, q: Query)
    requires ValidStore(s)
    ensures Present(AllManifests(s, q), s.files) && Present(ListManifests(s, q), s.files)
  {
    MultisetMembers(AllManifests(s, q), Filter(s.table, OfIdentity(q)));
    MultisetMembers(ListManifests(s, q), Filter(s.table, Selected(q)));
    forall i | 0 <= i < |AllManifests(s, q)|
      ensures AllManifests(s, q)[i].path in s.files
    {
      assert AllManifests(s, q)[i] in AllManifests(s, q);
    }
    forall i | 0 <= i < |ListManifests(s, q)|
      ensures ListManifests(s, q)[i].path in s.files
    {
      assert ListManifests(s, q)[i] in ListManifests(s, q);
    }
  }

  lemma {:induction false} FilterTwice(xs: seq<Manifest>, q: Query)
    ensures Filter(xs, Selected(q)) == Filter(Filter(xs, OfIdentity(q)), Overlaps(q))
  {
    if xs != [] {
      FilterTwice(xs[1..], q);
    }
  }

  /** The pruned manifest list is the full one with the non-overlapping manifests left out. */
  lemma PrunedListIsFiltered(s: Store, q: Query)
    ensures ListManifests(s, q) == Filter(AllManifests(s, q), Overlaps(q))
  {
    FilterTwice(s.table, q);
    FilterSort(Filter(s.table, OfIdentity(q)), ByMinOpen, Overlaps(q));
  }

  lemma {:induction false} NoneInWindow(rows: seq<Row>, q: Query)
    requires forall row :: row in rows ==> !InWindow(q)(row)
    ensures Filter(rows, InWindow(q)) == []
  {
    if rows != [] {
      NoneInWindow(rows[1..], q);
    }
  }

  lemma {:induction false} PruningLosesNoRow(ms: seq<Manifest>, files: map<Path, seq<Row>>, q: Query)
    requires forall m :: m in ms ==> Describes(m, files)
    ensures Present(ms, files) && Present(Filter(ms, Overlaps(q)), files)
    ensures RowsIn(Filter(ms, Overlaps(q)), files, q) == RowsIn(ms, files, q)
  {
    var kept := Filter(ms, Overlaps(q));
    assert Present(ms, files) && Present(kept, files) by {
      assert forall i :: 0 <= i < |ms| ==> ms[i] in ms;
      assert forall i :: 0 <= i < |kept| ==> kept[i] in kept;
    }
    if ms != [] {
      var front, last := ms[..|ms| - 1], ms[|ms| - 1];
      assert ms == front + [last];
      PruningLosesNoRow(front, files, q);
      FilterAppend(front, [last], Overlaps(q));
      var rest := Filter(front, Overlaps(q));
      if Overlaps(q)(last) {
        assert Filter([last], Overlaps(q)) == [last];
        assert kept == rest + [last];
        assert kept[..|kept| - 1] == rest;
      } else {
        assert Filter([last], Overlaps(q)) == [];
        assert kept == rest;
        forall row | row in files[last.path]
          ensures !InWindow(q)(row)
        {
          DescribedExtremes(last, files, row);
        }
        NoneInWindow(files[last.path], q);
      }
    }
  }

  lemma PrunedRowsAreAllRows(s: Store, q: Query)
    requires ValidStore(s)
    ensures Present(AllManifests(s, q), s.files) && Present(ListManifests(s, q), s.files)
    ensures RowsIn(ListManifests(s, q), s.files, q) == RowsIn(AllManifests(s, q), s.files, q)
  {
    ManifestsPresent(s, q);
    PrunedListIsFiltered(s, q);
    MultisetMembers(AllManifests(s, q), Filter(s.table, OfIdentity(q)));
    PruningLosesNoRow(AllManifests(s, q), s.files, q);
  }

  // ----- what a read returns

  lemma {:induction false} RowsInMembers(ms: seq<Manifest>, files: map<Path, seq<Row>>, q: Query, row: Row)
    requires Present(ms, files)
    ensures row in RowsIn(ms, files, q) <==>
            InWindow(q)(row) && exists m :: m in ms && m.path in files && row in files[m.path]
  {
    if ms != [] {
      var front, last := ms[..|ms| - 1], ms[|ms| - 1];
      assert ms == front + [last];
      RowsInMembers(front, files, q, row);
    }
  }

  lemma {:induction false} FirstPerTimeKeepsTimes(rows: seq<Row>)
    ensures Times(FirstPerTime(rows)) == Times(rows)
    ensures forall i, j :: 0 <= i < j < |FirstPerTime(rows)| ==>
              FirstPerTime(rows)[i].openTime != FirstPerTime(rows)[j].openTime
  {
    if rows != [] {
      var front, last := rows[..|rows| - 1], rows[|rows| - 1];
      assert rows == front + [last];
      FirstPerTimeKeepsTimes(front);
      var kept := FirstPerTime(front);
      forall i | 0 <= i < |kept|
        ensures kept[i].openTime in Times(kept)
      {
        assert kept[i] in kept;
      }
      assert Times(front + [last]) == Times(front) + {last.openTime};
      assert Times(kept + [last]) == Times(kept) + {last.openTime};
    }
  }

  /** Deduplication yields exactly the open times of its input, each once, ascending. */
  lemma DeduplicatedIsAscending(rows: seq<Row>)
    ensures Times(Deduplicated(rows)) == Times(rows)
    ensures forall i, j :: 0 <= i < j < |Deduplicated(rows)| ==>
              Deduplicated(rows)[i].openTime < Deduplicated(rows)[j].openTime
  {
    var firsts, sorted := FirstPerTime(rows), Deduplicated(rows);
    FirstPerTimeKeepsTimes(rows);
    SortSorts(firsts, ByOpen);
    MultisetMembers(sorted, firsts);
    forall i, j | 0 <= i < j < |sorted|
      ensures sorted[i].openTime < sorted[j].openTime
    {
      if sorted[i].openTime == sorted[j].openTime {
        DistinctAfterSort(firsts, sorted, i, j);
      }
    }
  }

  lemma DistinctAfterSort(firsts: seq<Row>, sorted: seq<Row>, i: nat, j: nat)
    requires multiset(sorted) == multiset(firsts) && i < j < |sorted|
    requires forall a, b :: 0 <= a < b < |firsts| ==> firsts[a].openTime != firsts[b].openTime
    ensures sorted[i].openTime != sorted[j].openTime
  {
    var x, y := sorted[i], sorted[j];
    assert sorted == sorted[..i] + [x] + sorted[i + 1..j] + [y] + sorted[j + 1..];
    MultisetMembers(sorted, firsts);
    assert x in sorted && y in sorted;
    CountNoRepeats(firsts, x);
    assert x == y ==> multiset(sorted)[x] >= 2;
  }

  /** Some active file of the query's identity holds a row that opens at `t`. */
  ghost predicate Holds(s: Store, q: Query, t: int) {
    exists m :: m in s.table && OfIdentity(q)(m) && m.path in s.files && t in Times(s.files[m.path])
  }

  lemma ScannedTimes(s: Store, q: Query, t: int)
    requires Present(AllManifests(s, q), s.files)
    ensures t in Times(RowsIn(AllManifests(s, q), s.files, q)) <==> q.start <= t < q.end && Holds(s, q, t)
  {
    var ms := AllManifests(s, q);
    var rows := RowsIn(ms, s.files, q);
    MultisetMembers(ms, Filter(s.table, OfIdentity(q)));
    if t in Times(rows) {
      var row :| row in rows && row.openTime == t;
      RowsInMembers(ms, s.files, q, row);
    }
    if q.start <= t < q.end && Holds(s, q, t) {
      var m :| m in s.table && OfIdentity(q)(m) && m.path in s.files && t in Times(s.files[m.path]);
      var row :| row in s.files[m.path] && row.openTime == t;
      assert m in ms;
      RowsInMembers(ms, s.files, q, row);
    }
  }

  ghost function BarTimes(bars: seq<Bar>): set<int> {
    set bar | bar in bars :: bar.time
  }

  lemma BarTimesOfRows(rows: seq<Row>)
    ensures BarTimes(Bars(rows)) == Times(rows)
  {
  }

  /** A read finds exactly the open times in its window that some active file of its identity
      holds, and fails exactly when there are none. */
  lemma FullScanFinds(s: Store, q: Query, t: int)
    requires ValidStore(s)
    ensures Present(AllManifests(s, q), s.files)
    ensures (FullScan(s, q).Ok? && t in BarTimes(FullScan(s, q).value)) <==> q.start <= t < q.end && Holds(s, q, t)
  {
    ManifestsPresent(s, q);
    var rows := RowsIn(AllManifests(s, q), s.files, q);
    ScannedTimes(s, q, t);
    DeduplicatedIsAscending(rows);
    BarTimesOfRows(Deduplicated(rows));
  }

  // ----- conservation over runs

  /** No write from position `from` on takes the manifest's id or its file. */
  ghost predicate Untouched(parts: seq<Part>, from: nat, m: Manifest) {
    forall j :: from <= j < |parts| ==> !Collides(m, parts[j].manifest)
  }

  /** Write `k` made the manifest and no later write took its place. */
  ghost predicate MadeAt(parts: seq<Part>, k: nat, m: Manifest) {
    k < |parts| && parts[k].manifest == m && Untouched(parts, k + 1, m)
  }

  /** `m` was in the table at the start, or some write made it, and nothing took its place since. */
  ghost predicate Kept(s: Store, parts: seq<Part>, m: Manifest) {
    (m in s.table && Untouched(parts, 0, m)) || exists k: nat :: MadeAt(parts, k, m)
  }

  lemma KeptStep(s: Store, parts: seq<Part>, m: Manifest)
    requires parts != []
    ensures var last := parts[|parts| - 1].manifest;
            Kept(s, parts, m) <==> m == last || (Kept(s, parts[..|parts| - 1], m) && !Collides(m, last))
  {
    var n := |parts| - 1;
    var front, last := parts[..n], parts[n].manifest;
    if m == last {
      assert MadeAt(parts, n, m);
    }
    if k: nat :| MadeAt(parts, k, m) && k < n {
      assert MadeAt(front, k, m);
    }
    if k: nat :| MadeAt(front, k, m) && !Collides(m, last) {
      assert MadeAt(parts, k, m);
    }
  }

  /** Exactly which manifests a run leaves listed, for every clock. */
  lemma {:induction false} TableExactly(s: Store, parts: seq<Part>, m: Manifest)
    ensures m in Run(s, parts).table <==> Kept(s, parts, m)
  {
    if parts != [] {
      var n := |parts| - 1;
      TableExactly(s, parts[..n], m);
      KeptStep(s, parts, m);
      assert Survives(parts[n].manifest)(m) <==> !Collides(m, parts[n].manifest);
    }
  }

  /** A file holds the rows of the last write to it. */
  lemma {:induction false} FileKept(s: Store, parts: seq<Part>, k: nat)
    requires k < |parts| && Untouched(parts, k + 1, parts[k].manifest)
    ensures parts[k].manifest.path in Run(s, parts).files
    ensures Run(s, parts).files[parts[k].manifest.path] == parts[k].rows
  {
    var n := |parts| - 1;
    if k < n {
      assert parts[..n][k] == parts[k];
      FileKept(s, parts[..n], k);
    }
  }

  /** The rows of a write whose manifest is still listed are found by every read of its identity. */
  lemma UntouchedWriteIsRead(s: Store, parts: seq<Part>, k: nat, t: int, q: Query)
    requires ValidStore(s) && forall i :: 0 <= i < |parts| ==> Truthful(parts[i])
    requires k < |parts| && Untouched(parts, k + 1, parts[k].manifest) && t in Times(parts[k].rows)
    requires OfIdentity(q)(parts[k].manifest) && q.start <= t < q.end
    ensures var s' := Run(s, parts);
            && Present(AllManifests(s', q), s'.files)
            && FullScan(s', q).Ok? && t in BarTimes(FullScan(s', q).value)
  {
    RunKeepsValid(s, parts);
    assert MadeAt(parts, k, parts[k].manifest);
    TableExactly(s, parts, parts[k].manifest);
    FileKept(s, parts, k);
    assert Holds(Run(s, parts), q, t);
    FullScanFinds(Run(s, parts), q, t);
  }

  ghost predicate WellFormed(ws: seq<PartWrite>) {
    forall i :: 0 <= i < |ws| ==> ws[i].bars != []
  }

  ghost function PartsOf(ws: seq<PartWrite>, digest: PartName -> string): (parts: seq<Part>)
    requires WellFormed(ws)
    ensures |parts| == |ws| && forall i :: 0 <= i < |ws| ==> parts[i] == PartOf(ws[i], digest) && Truthful(parts[i])
  {
    seq(|ws|, i requires 0 <= i < |ws| => PartOf(ws[i], digest))
  }

  /** The clock moves on between partition writes. */
  ghost predicate ClockAdvances(ws: seq<PartWrite>) {
    && (forall i :: 0 <= i < |ws| ==> ws[i].ts <= ws[i].now)
    && (forall i, j :: 0 <= i < j < |ws| ==> ws[i].now < ws[j].ts)
  }

  /** Under an advancing clock, every open time ever written is returned by every later read of
      that identity whose window contains it. */
  lemma WrittenTimesAreRead(s: Store, ws: seq<PartWrite>, digest: PartName -> string, k: nat, bar: Bar, q: Query)
    requires ValidStore(s) && WellFormed(ws) && ClockAdvances(ws)
    requires k < |ws| && bar in ws[k].bars
    requires q.identity == ws[k].identity && q.start <= bar.time < q.end
    ensures var s' := Run(s, PartsOf(ws, digest));
            && Present(AllManifests(s', q), s'.files)
            && FullScan(s', q).Ok? && bar.time in BarTimes(FullScan(s', q).value)
  {
    var parts := PartsOf(ws, digest);
    forall j | k + 1 <= j < |parts|
      ensures !Collides(parts[k].manifest, parts[j].manifest)
    {
      assert ws[k].now < ws[j].ts <= ws[j].now;
    }
    RowsTimes(ws[k].bars, bar);
    MultisetMembers(parts[k].rows, Rows(ws[k].bars));
    UntouchedWriteIsRead(s, parts, k, bar.time, q);
  }

  lemma RowsTimes(bars: seq<Bar>, bar: Bar)
    requires bar in bars
    ensures ToRow(bar) in Rows(bars)
  {
  }

  /** A later write takes the place of an earlier one when both make the same manifest id, from one
      clock reading and one digest of the file name, or the same file. */
  ghost predicate Displaces(later: PartWrite, earlier: PartWrite, digest: PartName -> string) {
    var name := PartName(later.ts, later.replace && later.ts < 100_000_000_000);
    var taken := PartName(earlier.ts, earlier.replace && earlier.ts < 100_000_000_000);
    || (later.now == earlier.now && digest(name) == digest(taken))
    || (later.identity == earlier.identity && later.month == earlier.month && name == taken)
  }

  /** Write `k` holds the open time for the queried identity, and no later write takes its place. */
  ghost predicate StillListed(ws: seq<PartWrite>, digest: PartName -> string, k: nat, q: Query, t: int)
    requires WellFormed(ws)
  {
    && k < |ws| && ws[k].identity == q.identity && (exists bar :: bar in ws[k].bars && bar.time == t)
    && forall j :: k < j < |ws| ==> !Displaces(ws[j], ws[k], digest)
  }

  lemma DisplacesExactly(ws: seq<PartWrite>, digest: PartName -> string, k: nat)
    requires WellFormed(ws) && k < |ws|
    ensures Untouched(PartsOf(ws, digest), k + 1, PartOf(ws[k], digest).manifest)
       <==> forall j :: k < j < |ws| ==> !Displaces(ws[j], ws[k], digest)
  {
    var parts := PartsOf(ws, digest);
    forall j | k < j < |ws|
      ensures Collides(parts[k].manifest, parts[j].manifest) <==> Displaces(ws[j], ws[k], digest)
    {
      assert parts[j].manifest.path == PathOf(ws[j]) && parts[k].manifest.path == PathOf(ws[k]);
    }
  }

  /** For any clock at all, exactly which written open times a read returns. */
  lemma WrittenTimesReadExactly(ws: seq<PartWrite>, digest: PartName -> string, q: Query, t: int)
    requires WellFormed(ws)
    ensures var s := Run(Store(map[], []), PartsOf(ws, digest));
            && Present(AllManifests(s, q), s.files)
            && ((FullScan(s, q).Ok? && t in BarTimes(FullScan(s, q).value)) <==>
                q.start <= t < q.end && exists k: nat :: StillListed(ws, digest, k, q, t))
  {
    var s := Run(Store(map[], []), PartsOf(ws, digest));
    RunKeepsValid(Store(map[], []), PartsOf(ws, digest));
    FullScanFinds(s, q, t);
    HoldsExactly(ws, digest, q, t);
  }

  /** A read returns a bar that opens at `t`. */
  ghost predicate Returns(result: Result<seq<Bar>, Error>, t: int) {
    result.Ok? && t in BarTimes(result.value)
  }

  /** Some write of the history still answers for the open time. */
  ghost predicate Answers(ws: seq<PartWrite>, digest: PartName -> string, q: Query, t: int)
    requires WellFormed(ws)
  {
    q.start <= t < q.end && exists k: nat :: StillListed(ws, digest, k, q, t)
  }

  lemma ReadsHistory(ws: seq<PartWrite>, digest: PartName -> string, q: Query, s: Store, result: Result<seq<Bar>, Error>)
    requires WellFormed(ws) && s == Run(Store(map[], []), PartsOf(ws, digest))
    requires Present(AllManifests(s, q), s.files) && result == FullScan(s, q)
    ensures forall t :: Returns(result, t) <==> Answers(ws, digest, q, t)
  {
    forall t
      ensures Returns(result, t) <==> Answers(ws, digest, q, t)
    {
      WrittenTimesReadExactly(ws, digest, q, t);
    }
  }

  /** Writing after a run continues it. */
  lemma {:induction false} RunConcat(s: Store, a: seq<PartWrite>, b: seq<PartWrite>, digest: PartName -> string)
    requires WellFormed(a) && WellFormed(b)
    ensures WellFormed(a + b) && Run(Run(s, PartsOf(a, digest)), PartsOf(b, digest)) == Run(s, PartsOf(a + b, digest))
  {
    if b == [] {
      assert a + b == a;
    } else {
      var front, last := b[..|b| - 1], b[|b| - 1];
      assert a + b == a + front + [last] && b == front + [last];
      RunConcat(s, a, front, digest);
      RunAppend(s, a + front, last, digest);
      RunAppend(Run(s, PartsOf(a, digest)), front, last, digest);
    }
  }

  /** Under an advancing clock every write stays listed, so a read misses nothing ever written. */
  lemma AdvancingClockListsAll(ws: seq<PartWrite>, digest: PartName -> string, k: nat, bar: Bar, q: Query)
    requires WellFormed(ws) && ClockAdvances(ws) && k < |ws| && bar in ws[k].bars && q.identity == ws[k].identity
    ensures StillListed(ws, digest, k, q, bar.time)
  {
    forall j | k < j < |ws|
      ensures !Displaces(ws[j], ws[k], digest)
    {
      assert ws[k].now < ws[j].ts <= ws[j].now;
    }
  }

  lemma HoldsExactly(ws: seq<PartWrite>, digest: PartName -> string, q: Query, t: int)
    requires WellFormed(ws)
    ensures Holds(Run(Store(map[], []), PartsOf(ws, digest)), q, t) <==> exists k: nat :: StillListed(ws, digest, k, q, t)
  {
    var empty, parts := Store(map[], []), PartsOf(ws, digest);
    var s := Run(empty, parts);
    if m :| m in s.table && OfIdentity(q)(m) && m.path in s.files && t in Times(s.files[m.path]) {
      TableExactly(empty, parts, m);
      var k: nat :| MadeAt(parts, k, m);
      FileKept(empty, parts, k);
      PartTimes(ws[k], digest, t);
      DisplacesExactly(ws, digest, k);
      assert StillListed(ws, digest, k, q, t);
    }
    if k: nat :| StillListed(ws, digest, k, q, t) {
      DisplacesExactly(ws, digest, k);
      TableExactly(empty, parts, parts[k].manifest);
      assert MadeAt(parts, k, parts[k].manifest);
      FileKept(empty, parts, k);
      PartTimes(ws[k], digest, t);
      assert Holds(s, q, t);
    }
  }

  lemma PartTimes(w: PartWrite, digest: PartName -> string, t: int)
    requires w.bars != []
    ensures t in Times(PartOf(w, digest).rows) <==> exists bar :: bar in w.bars && bar.time == t
  {
    var rows := PartOf(w, digest).rows;
    MultisetMembers(rows, Rows(w.bars));
    if row :| row in rows && row.openTime == t {
      var i :| 0 <= i < |w.bars| && Rows(w.bars)[i] == row;
      assert w.bars[i] in w.bars;
    }
    if bar :| bar in w.bars && bar.time == t {
      RowsTimes(w.bars, bar);
    }
  }

  /** Without it the promise fails: two months written within one millisecond share a manifest id,
      so the second write unlists the first month. */
  lemma SameMillisecondLosesAMonth(identity: Identity, digest: PartName -> string, a: Bar, b: Bar, t: int)
    requires MonthOf(a.time) != MonthOf(b.time)
    ensures var ws := [PartWrite(identity, false, MonthOf(a.time), [a], t, t),
                       PartWrite(identity, false, MonthOf(b.time), [b], t, t)];
            var s := Run(Store(map[], []), PartsOf(ws, digest));
            var q := Query(identity, a.time, a.time + 1);
            Present(AllManifests(s, q), s.files) && FullScan(s, q) == Err(Unavailable)
  {
    var w1 := PartWrite(identity, false, MonthOf(a.time), [a], t, t);
    var w2 := PartWrite(identity, false, MonthOf(b.time), [b], t, t);
    var parts := PartsOf([w1, w2], digest);
    var empty := Store(map[], []);
    var s := Run(empty, parts);
    var q := Query(identity, a.time, a.time + 1);
    RunKeepsValid(empty, parts);
    SecondOnly(parts);
    FileKept(empty, parts, 1);
    OneRow(parts[1].rows, b);
    ScanOfNothing(s, q);
  }

  lemma SecondOnly(parts: seq<Part>)
    requires |parts| == 2 && Collides(parts[0].manifest, parts[1].manifest)
    ensures forall m :: m in Run(Store(map[], []), parts).table ==> m == parts[1].manifest
  {
    forall m | m in Run(Store(map[], []), parts).table
      ensures m == parts[1].manifest
    {
      TableExactly(Store(map[], []), parts, m);
      var k: nat :| MadeAt(parts, k, m);
    }
  }

  lemma OneRow(rows: seq<Row>, bar: Bar)
    requires multiset(rows) == multiset(Rows([bar]))
    ensures forall r :: r in rows ==> r == ToRow(bar)
  {
    MultisetMembers(rows, Rows([bar]));
    assert Rows([bar]) == [ToRow(bar)];
  }

  lemma ScanOfNothing(s: Store, q: Query)
    requires ValidStore(s) && q.end == q.start + 1 && !Holds(s, q, q.start)
    ensures Present(AllManifests(s, q), s.files) && FullScan(s, q) == Err(Unavailable)
  {
    ManifestsPresent(s, q);
    var rows := RowsIn(AllManifests(s, q), s.files, q);
    ScannedTimes(s, q, q.start);
    assert forall row :: row in rows ==> row.openTime == q.start by {
      forall row | row in rows
        ensures row.openTime == q.start
      {
        RowsInMembers(AllManifests(s, q), s.files, q, row);
      }
    }
    assert rows != [] ==> rows[0] in rows && rows[0].openTime in Times(rows);
  }

  // ----- which bar a read returns

  function AtTime(t: int): Row -> bool {
    (row: Row) => row.openTime == t
  }

  lemma {:induction false} FirstPerTimeIsFirst(rows: seq<Row>, x: Row)
    requires x in FirstPerTime(rows)
    ensures Filter(rows, AtTime(x.openTime)) != [] && Filter(rows, AtTime(x.openTime))[0] == x
  {
    var front, last := rows[..|rows| - 1], rows[|rows| - 1];
    assert rows == front + [last];
    FilterAppend(front, [last], AtTime(x.openTime));
    if x in FirstPerTime(front) {
      FirstPerTimeIsFirst(front, x);
    } else {
      FirstPerTimeKeepsTimes(front);
      NoneAtTime(front, x.openTime);
    }
  }

  lemma {:induction false} NoneAtTime(rows: seq<Row>, t: int)
    requires t !in Times(rows)
    ensures Filter(rows, AtTime(t)) == []
  {
    if rows != [] {
      assert Times(rows[1..]) <= Times(rows);
      NoneAtTime(rows[1..], t);
    }
  }

  lemma {:induction false} WindowKeepsTime(rows: seq<Row>, q: Query, t: int)
    requires q.start <= t < q.end
    ensures Filter(Filter(rows, InWindow(q)), AtTime(t)) == Filter(rows, AtTime(t))
  {
    if rows != [] {
      WindowKeepsTime(rows[1..], q, t);
      assert Filter(rows, InWindow(q)) ==
             (if InWindow(q)(rows[0]) then [rows[0]] else []) + Filter(rows[1..], InWindow(q));
      FilterAppend(if InWindow(q)(rows[0]) then [rows[0]] else [], Filter(rows[1..], InWindow(q)), AtTime(t));
    }
  }

  /** The first row at a time comes from the first listed file that has one. */
  lemma {:induction false} FirstFile(ms: seq<Manifest>, files: map<Path, seq<Row>>, q: Query, t: int) returns (a: nat)
    requires Present(ms, files) && q.start <= t < q.end && Filter(RowsIn(ms, files, q), AtTime(t)) != []
    ensures a < |ms| && Filter(files[ms[a].path], AtTime(t)) != []
    ensures Filter(files[ms[a].path], AtTime(t))[0] == Filter(RowsIn(ms, files, q), AtTime(t))[0]
    ensures forall b :: 0 <= b < a ==> Filter(files[ms[b].path], AtTime(t)) == []
  {
    var front, last := ms[..|ms| - 1], ms[|ms| - 1];
    assert forall b :: 0 <= b < |front| ==> front[b] == ms[b];
    FilterAppend(RowsIn(front, files, q), Filter(files[last.path], InWindow(q)), AtTime(t));
    WindowKeepsTime(files[last.path], q, t);
    if Filter(RowsIn(front, files, q), AtTime(t)) != [] {
      a := FirstFile(front, files, q, t);
    } else {
      a := |front|;
      NoneInFiles(front, files, q, t);
    }
  }

  lemma {:induction false} NoneInFiles(ms: seq<Manifest>, files: map<Path, seq<Row>>, q: Query, t: int)
    requires Present(ms, files) && q.start <= t < q.end && Filter(RowsIn(ms, files, q), AtTime(t)) == []
    ensures forall b :: 0 <= b < |ms| ==> Filter(files[ms[b].path], AtTime(t)) == []
  {
    if ms != [] {
      var front, last := ms[..|ms| - 1], ms[|ms| - 1];
      assert forall b :: 0 <= b < |front| ==> front[b] == ms[b];
      FilterAppend(RowsIn(front, files, q), Filter(files[last.path], InWindow(q)), AtTime(t));
      WindowKeepsTime(files[last.path], q, t);
      NoneInFiles(front, files, q, t);
    }
  }

  /** Sorting a part keeps rows of one time in their order. */
  lemma PartKeepsOrder(w: PartWrite, digest: PartName -> string, t: int)
    requires w.bars != []
    ensures Filter(PartOf(w, digest).rows, AtTime(t)) == Filter(Rows(w.bars), AtTime(t))
  {
    FilterSort(Rows(w.bars), ByOpen, AtTime(t));
    var same := Filter(Rows(w.bars), AtTime(t));
    forall i, j | 0 <= i < j < |same|
      ensures ByOpen(same[i], same[j])
    {
      assert same[i] in same && same[j] in same;
    }
    SortOfSorted(same, ByOpen);
  }

  /** Bar `b` is bar `i` of a write as it reads back, and the write has no earlier bar at that time. */
  ghost predicate FirstAt(bars: seq<Bar>, i: int, b: Bar) {
    && 0 <= i < |bars| && bars[i].time == b.time && bars[i].quote == b.quote
    && b.timeClose == (if bars[i].timeClose != 0 then bars[i].timeClose else bars[i].time)
    && forall h :: 0 <= h < i ==> bars[h].time != b.time
  }

  lemma {:induction false} FirstBar(bars: seq<Bar>, t: int) returns (i: nat)
    requires Filter(Rows(bars), AtTime(t)) != []
    ensures i < |bars| && bars[i].time == t && FirstAt(bars, i, ToBar(Filter(Rows(bars), AtTime(t))[0]))
  {
    assert Rows(bars)[1..] == Rows(bars[1..]);
    if bars[0].time == t {
      i := 0;
    } else {
      var k := FirstBar(bars[1..], t);
      i := k + 1;
      assert forall h :: 0 < h < |bars| ==> bars[h] == bars[1..][h - 1];
    }
  }

  /** One list of bars begins no later than another. */
  ghost predicate BeginsNoLater(xs: seq<Bar>, ys: seq<Bar>) {
    forall y :: y in ys ==> exists x :: x in xs && x.time <= y.time
  }

  /** Where a returned bar comes from: the first bar at its time of a write of the history that is still
      listed and begins no later than any other listed write that has the time. */
  ghost predicate Origin(ws: seq<PartWrite>, digest: PartName -> string, q: Query, k: nat, b: Bar)
    requires WellFormed(ws)
  {
    && StillListed(ws, digest, k, q, b.time) && (exists i :: FirstAt(ws[k].bars, i, b))
    && forall j: nat :: StillListed(ws, digest, j, q, b.time) ==> BeginsNoLater(ws[k].bars, ws[j].bars)
  }

  /** The part of a write has the write's least time as its minimum. */
  lemma PartMinimum(w: PartWrite, digest: PartName -> string)
    requires w.bars != []
    ensures exists x :: x in w.bars && x.time == PartOf(w, digest).manifest.minOpen
    ensures forall x :: x in w.bars ==> PartOf(w, digest).manifest.minOpen <= x.time
  {
    var rows := PartOf(w, digest).rows;
    MultisetMembers(rows, Rows(w.bars));
    assert rows[0] in rows;
    var i :| 0 <= i < |w.bars| && Rows(w.bars)[i] == rows[0];
    assert w.bars[i] in w.bars;
    forall x | x in w.bars
      ensures PartOf(w, digest).manifest.minOpen <= x.time
    {
      RowsTimes(w.bars, x);
      DescribedExtremes(PartOf(w, digest).manifest, map[PartOf(w, digest).manifest.path := rows], ToRow(x));
    }
  }

  lemma EarlierPartBeginsEarlier(v: PartWrite, w: PartWrite, digest: PartName -> string)
    requires v.bars != [] && w.bars != []
    requires PartOf(v, digest).manifest.minOpen <= PartOf(w, digest).manifest.minOpen
    ensures BeginsNoLater(v.bars, w.bars)
  {
    PartMinimum(v, digest);
    PartMinimum(w, digest);
  }

  /** A listed manifest of the history is some write's, and its file holds that write's rows. */
  lemma ListedWrite(ws: seq<PartWrite>, digest: PartName -> string, m: Manifest) returns (k: nat)
    requires WellFormed(ws) && m in Run(Store(map[], []), PartsOf(ws, digest)).table
    ensures k < |ws| && m == PartOf(ws[k], digest).manifest && forall j :: k < j < |ws| ==> !Displaces(ws[j], ws[k], digest)
    ensures var s := Run(Store(map[], []), PartsOf(ws, digest));
            m.path in s.files && s.files[m.path] == PartOf(ws[k], digest).rows
  {
    TableExactly(Store(map[], []), PartsOf(ws, digest), m);
    k :| MadeAt(PartsOf(ws, digest), k, m);
    FileKept(Store(map[], []), PartsOf(ws, digest), k);
    DisplacesExactly(ws, digest, k);
  }

  /** Conversely, a write that is still listed is in the table with its rows. */
  lemma StillListedIsListed(ws: seq<PartWrite>, digest: PartName -> string, j: nat, q: Query, t: int)
    requires WellFormed(ws) && StillListed(ws, digest, j, q, t)
    ensures var s := Run(Store(map[], []), PartsOf(ws, digest));
            var m := PartOf(ws[j], digest).manifest;
            && m in AllManifests(s, q) && m.path in s.files && Filter(s.files[m.path], AtTime(t)) != []
  {
    var s, m := Run(Store(map[], []), PartsOf(ws, digest)), PartOf(ws[j], digest).manifest;
    DisplacesExactly(ws, digest, j);
    assert MadeAt(PartsOf(ws, digest), j, m);
    TableExactly(Store(map[], []), PartsOf(ws, digest), m);
    FileKept(Store(map[], []), PartsOf(ws, digest), j);
    MultisetMembers(AllManifests(s, q), Filter(s.table, OfIdentity(q)));
    PartTimes(ws[j], digest, t);
    var row :| row in PartOf(ws[j], digest).rows && row.openTime == t;
    assert row in Filter(s.files[m.path], AtTime(t));
  }

  /** Every bar a read returns has its origin in the history of writes. */
  lemma ReturnedBarHasOrigin(ws: seq<PartWrite>, digest: PartName -> string, q: Query, s: Store, b: Bar) returns (k: nat)
    requires WellFormed(ws) && s == Run(Store(map[], []), PartsOf(ws, digest))
    requires Present(AllManifests(s, q), s.files) && FullScan(s, q).Ok? && b in FullScan(s, q).value
    ensures Origin(ws, digest, q, k, b)
  {
    var ms := AllManifests(s, q);
    var a := SourceFile(s, q, b);
    MultisetMembers(ms, Filter(s.table, OfIdentity(q)));
    assert ms[a] in ms;
    k := ListedWrite(ws, digest, ms[a]);
    PartKeepsOrder(ws[k], digest, b.time);
    var i := FirstBar(ws[k].bars, b.time);
    assert ws[k].bars[i] in ws[k].bars;
    forall j: nat | StillListed(ws, digest, j, q, b.time)
      ensures BeginsNoLater(ws[k].bars, ws[j].bars)
    {
      StillListedIsListed(ws, digest, j, q, b.time);
      FirstIsLeast(ms, s.files, b.time, a, PartOf(ws[j], digest).manifest);
      EarlierPartBeginsEarlier(ws[k], ws[j], digest);
    }
  }

  /** The files are taken in ascending order of their least open time. */
  lemma FirstIsLeast(ms: seq<Manifest>, files: map<Path, seq<Row>>, t: int, a: nat, m: Manifest)
    requires Present(ms, files) && SortedBy(ms, ByMinOpen) && a < |ms| && m in ms
    requires forall b :: 0 <= b < a ==> Filter(files[ms[b].path], AtTime(t)) == []
    requires m.path in files && Filter(files[m.path], AtTime(t)) != []
    ensures ms[a].minOpen <= m.minOpen
  {
    var c :| 0 <= c < |ms| && ms[c] == m;
    assert a <= c;
  }

  /** The file a returned bar is read from. */
  lemma SourceFile(s: Store, q: Query, b: Bar) returns (a: nat)
    requires Present(AllManifests(s, q), s.files) && FullScan(s, q).Ok? && b in FullScan(s, q).value
    ensures var ms := AllManifests(s, q);
            && SortedBy(ms, ByMinOpen) && a < |ms| && q.start <= b.time < q.end
            && Filter(s.files[ms[a].path], AtTime(b.time)) != []
            && b == ToBar(Filter(s.files[ms[a].path], AtTime(b.time))[0])
            && forall c :: 0 <= c < a ==> Filter(s.files[ms[c].path], AtTime(b.time)) == []
  {
    var ms := AllManifests(s, q);
    var rows := RowsIn(ms, s.files, q);
    SortSorts(Filter(s.table, OfIdentity(q)), ByMinOpen);
    var i :| 0 <= i < |Deduplicated(rows)| && b == ToBar(Deduplicated(rows)[i]);
    var x := Deduplicated(rows)[i];
    assert x in Deduplicated(rows);
    MultisetMembers(Deduplicated(rows), FirstPerTime(rows));
    RowsInMembers(ms, s.files, q, x);
    FirstPerTimeIsFirst(rows, x);
    a := FirstFile(ms, s.files, q, b.time);
  }

  lemma ScanFollowsHistory(ws: seq<PartWrite>, digest: PartName -> string, q: Query, s: Store, result: Result<seq<Bar>, Error>)
    requires WellFormed(ws) && s == Run(Store(map[], []), PartsOf(ws, digest))
    requires Present(AllManifests(s, q), s.files) && result == FullScan(s, q)
    ensures result.Ok? ==> forall b :: b in result.value ==> exists k: nat :: Origin(ws, digest, q, k, b)
    ensures result.Ok? ==> result.value != [] && forall i, j :: 0 <= i < j < |result.value| ==> result.value[i].time < result.value[j].time
  {
    if result.Ok? {
      DeduplicatedIsAscending(RowsIn(AllManifests(s, q), s.files, q));
      NotEmptied(RowsIn(AllManifests(s, q), s.files, q));
      forall b | b in result.value
        ensures exists k: nat :: Origin(ws, digest, q, k, b)
      {
        var k := ReturnedBarHasOrigin(ws, digest, q, s, b);
      }
    }
  }

  lemma NotEmptied(rows: seq<Row>)
    requires rows != []
    ensures Deduplicated(rows) != []
  {
    DeduplicatedIsAscending(rows);
    assert rows[0].openTime in Times(rows);
  }

  // ----- month partitions

  /** The bars of the listed months, month after month. */
  ghost function ByMonths(months: seq<Month>, bars: seq<Bar>): seq<Bar> {
    if months == [] then []
    else ByMonths(months[..|months| - 1], bars) + Filter(bars, InMonth(months[|months| - 1]))
  }

  ghost predicate Distinct(months: seq<Month>) {
    forall i, j :: 0 <= i < j < |months| ==> months[i] != months[j]
  }

  function InMonths(months: seq<Month>): Bar -> bool {
    (bar: Bar) => MonthOf(bar.time) in months
  }

  lemma {:induction false} FilterDisjoint(bars: seq<Bar>, months: seq<Month>, m: Month)
    requires m !in months
    ensures multiset(Filter(bars, InMonths(months + [m]))) ==
            multiset(Filter(bars, InMonths(months))) + multiset(Filter(bars, InMonth(m)))
  {
    if bars != [] {
      assert bars == [bars[0]] + bars[1..];
      FilterDisjoint(bars[1..], months, m);
    }
  }

  lemma {:induction false} ByMonthsIsFilter(months: seq<Month>, bars: seq<Bar>)
    requires Distinct(months)
    ensures multiset(ByMonths(months, bars)) == multiset(Filter(bars, InMonths(months)))
  {
    if months == [] {
      NoMonths(bars);
    } else {
      var front, last := months[..|months| - 1], months[|months| - 1];
      assert months == front + [last];
      ByMonthsIsFilter(front, bars);
      FilterDisjoint(bars, front, last);
    }
  }

  lemma {:induction false} NoMonths(bars: seq<Bar>)
    ensures Filter(bars, InMonths([])) == []
  {
    if bars != [] {
      NoMonths(bars[1..]);
    }
  }

  lemma {:induction false} AllInMonths(bars: seq<Bar>, months: seq<Month>)
    requires forall b :: b in bars ==> MonthOf(b.time) in months
    ensures Filter(bars, InMonths(months)) == bars
  {
    if bars != [] {
      AllInMonths(bars[1..], months);
    }
  }

  /** Month partitions conserve their input: concatenated, they are a permutation of it. */
  lemma PartitionsConserve(months: seq<Month>, bars: seq<Bar>)
    requires Distinct(months) && forall b :: b in bars ==> MonthOf(b.time) in months
    ensures multiset(ByMonths(months, bars)) == multiset(bars)
    ensures |ByMonths(months, bars)| == |bars|
  {
    ByMonthsIsFilter(months, bars);
    AllInMonths(bars, months);
    assert |multiset(ByMonths(months, bars))| == |ByMonths(months, bars)|;
  }

  /** `partitions.setdefault(month, []).append(bar)` over the candles; `order` is the dictionary's
      insertion order. */
  method PartitionByMonth(candles: seq<Bar>) returns (order: seq<Month>, parts: map<Month, seq<Bar>>)
    ensures MonthParts(candles, order, parts)
  {
    order, parts := [], map[];
    for i := 0 to |candles|
      invariant MonthParts(candles[..i], order, parts)
    {
      var bar := candles[i];
      var key := MonthOf(bar.time);
      assert candles[..i + 1] == candles[..i] + [bar];
      MonthPartsStep(candles[..i], order, parts, bar);
      order := if key in parts then order else order + [key];
      parts := parts[key := (if key in parts then parts[key] else []) + [bar]];
    }
    assert candles[..|candles|] == candles;
  }

  ghost predicate MonthParts(candles: seq<Bar>, order: seq<Month>, parts: map<Month, seq<Bar>>) {
    && Distinct(order) && parts.Keys == (set m | m in order)
    && (forall b :: b in candles ==> MonthOf(b.time) in order)
    && (forall m :: m in parts ==> parts[m] != [] && parts[m] == Filter(candles, InMonth(m)))
  }

  lemma MonthPartsStep(candles: seq<Bar>, order: seq<Month>, parts: map<Month, seq<Bar>>, bar: Bar)
    requires MonthParts(candles, order, parts)
    ensures var key := MonthOf(bar.time);
            MonthParts(candles + [bar],
                       if key in parts then order else order + [key],
                       parts[key := (if key in parts then parts[key] else []) + [bar]])
  {
    var key := MonthOf(bar.time);
    var order' := if key in parts then order else order + [key];
    var parts' := parts[key := (if key in parts then parts[key] else []) + [bar]];
    if key !in parts {
      EmptyMonth(candles, key);
    }
    assert parts'.Keys == (set m | m in order');
    assert forall b :: b in candles ==> MonthOf(b.time) in order';
    forall m | m in parts'
      ensures parts'[m] != [] && parts'[m] == Filter(candles + [bar], InMonth(m))
    {
      FilterAppend(candles, [bar], InMonth(m));
      assert Filter([bar], InMonth(m)) == if m == key then [bar] else [];
    }
  }

  lemma MonthBars(candles: seq<Bar>, order: seq<Month>, parts: map<Month, seq<Bar>>, k: nat)
    requires MonthParts(candles, order, parts) && k < |order|
    ensures order[k] in parts && parts[order[k]] != [] && parts[order[k]] == Filter(candles, InMonth(order[k]))
    ensures MonthOf(parts[order[k]][0].time) == order[k]
  {
    assert order[k] in parts;
    assert parts[order[k]][0] in parts[order[k]];
  }

  lemma {:induction false} EmptyMonth(bars: seq<Bar>, m: Month)
    requires forall b :: b in bars ==> MonthOf(b.time) != m
    ensures Filter(bars, InMonth(m)) == []
  {
    if bars != [] {
      EmptyMonth(bars[1..], m);
    }
  }

  // ----- the storage object

  /** One write per listed month, holding that month's candles, at its own clock readings. */
  ghost predicate WritesOf(writes: seq<PartWrite>, identity: Identity, replace: bool, candles: seq<Bar>,
                           order: seq<Month>, clock: nat -> (int, int)) {
    && |writes| == |order| && WellFormed(writes)
    && forall k: nat :: k < |order| ==>
         writes[k] == PartWrite(identity, replace, order[k], Filter(candles, InMonth(order[k])), clock(k).0, clock(k).1)
  }

  lemma WritesOfExtend(writes: seq<PartWrite>, identity: Identity, replace: bool, candles: seq<Bar>,
                       order: seq<Month>, clock: nat -> (int, int), k: nat, w: PartWrite)
    requires k < |order| && WritesOf(writes, identity, replace, candles, order[..k], clock)
    requires w.bars != []
    requires w == PartWrite(identity, replace, order[k], Filter(candles, InMonth(order[k])), clock(k).0, clock(k).1)
    ensures WritesOf(writes + [w], identity, replace, candles, order[..k + 1], clock)
    ensures ByMonths(order[..k + 1], candles) == ByMonths(order[..k], candles) + w.bars
  {
    var longer := order[..k + 1];
    assert longer[..k] == order[..k];
    forall j: nat | j < k
      ensures (writes + [w])[j] ==
              PartWrite(identity, replace, longer[j], Filter(candles, InMonth(longer[j])), clock(j).0, clock(j).1)
    {
      assert order[..k][j] == longer[j];
    }
  }

  lemma RunAppend(s: Store, ws: seq<PartWrite>, w: PartWrite, digest: PartName -> string)
    requires WellFormed(ws) && w.bars != []
    ensures Run(s, PartsOf(ws + [w], digest)) == Apply(Run(s, PartsOf(ws, digest)), PartOf(w, digest))
  {
    var parts := PartsOf(ws + [w], digest);
    assert parts[..|parts| - 1] == PartsOf(ws, digest);
  }

  /** `_deduplicate_rows_by_open_time` */
  method DeduplicateRows(rows: seq<Row>) returns (canonical: seq<Row>)
    ensures canonical == Deduplicated(rows)
  {
    var seen: map<int, Row> := map[];
    var firsts: seq<Row> := [];
    for i := 0 to |rows|
      invariant firsts == FirstPerTime(rows[..i])
      invariant seen.Keys == Times(firsts)
    {
      var row := rows[i];
      assert rows[..i + 1][..i] == rows[..i];
      if row.openTime in seen {
        continue;
      }
      assert Times(firsts + [row]) == Times(firsts) + {row.openTime};
      seen, firsts := seen[row.openTime := row], firsts + [row];
    }
    assert rows[..|rows|] == rows;
    canonical := SortBy(firsts, ByOpen);
  }

  class CandleStorage {
    var files: map<Path, seq<Row>>
    var table: seq<Manifest>
    const digest: PartName -> string
    ghost var history: seq<PartWrite>   // every partition write so far

    constructor (digest: PartName -> string)
      ensures Contents() == Store(map[], []) && history == [] && Valid() && this.digest == digest
    {
      files, table, this.digest, history := map[], [], digest, [];
    }

    function Contents(): Store
      reads this
    {
      Store(files, table)
    }

    /** Every manifest tells the truth about its file, ids and paths are unique, and the store is what
        the writes so far make of an empty one. */
    ghost predicate Valid()
      reads this
    {
      ValidStore(Contents()) && WellFormed(history) && Contents() == Run(Store(map[], []), PartsOf(history, digest))
    }

    method WritePartition(w: PartWrite) returns (manifest: Manifest)
      requires w.bars != []
      modifies this`files
      ensures manifest == PartOf(w, digest).manifest
      ensures files == old(files)[manifest.path := PartOf(w, digest).rows]
    {
      var part := PartOf(w, digest);
      files := files[PathOf(w) := part.rows];
      manifest := part.manifest;
    }

    method InsertManifest(manifest: Manifest)
      modifies this`table
      ensures table == InsertOrReplace(old(table), manifest)
    {
      table := Filter(table, Survives(manifest)) + [manifest];
    }

    method WriteMonth(w: PartWrite) returns (rowCount: nat)
      requires w.bars != [] && ValidStore(Contents())
      modifies this`files, this`table
      ensures ValidStore(Contents()) && Contents() == Apply(old(Contents()), PartOf(w, digest))
      ensures rowCount == |w.bars|
    {
      ghost var before := Contents();
      var manifest := WritePartition(w);
      InsertManifest(manifest);
      ApplyKeepsValid(before, PartOf(w, digest));
      MultisetMembers(PartOf(w, digest).rows, Rows(w.bars));
      rowCount := manifest.rowCount;
    }

    /** The write of one month's bars, under the month of the first of them. */
    method MonthWrite(identity: Identity, replace: bool, ghost candles: seq<Bar>, order: seq<Month>,
                      parts: map<Month, seq<Bar>>, clock: nat -> (int, int), k: nat)
      returns (w: PartWrite)
      requires MonthParts(candles, order, parts) && k < |order|
      ensures w.bars != []
      ensures w == PartWrite(identity, replace, order[k], Filter(candles, InMonth(order[k])), clock(k).0, clock(k).1)
    {
      MonthBars(candles, order, parts, k);
      var bars := parts[order[k]];
      w := PartWrite(identity, replace, MonthOf(bars[0].time), bars, clock(k).0, clock(k).1);
    }

    method WriteMonths(identity: Identity, replace: bool, candles: seq<Bar>,
                       order: seq<Month>, parts: map<Month, seq<Bar>>, clock: nat -> (int, int))
      returns (total: nat, ghost writes: seq<PartWrite>)
      requires ValidStore(Contents()) && MonthParts(candles, order, parts)
      modifies this`files, this`table
      ensures ValidStore(Contents()) && total == |candles|
      ensures WritesOf(writes, identity, replace, candles, order, clock)
      ensures Contents() == Run(old(Contents()), PartsOf(writes, digest))
    {
      total, writes := 0, [];
      assert PartsOf(writes, digest) == [];
      for k := 0 to |order|
        invariant ValidStore(Contents()) && WritesOf(writes, identity, replace, candles, order[..k], clock)
        invariant Contents() == Run(old(Contents()), PartsOf(writes, digest))
        invariant total == |ByMonths(order[..k], candles)|
      {
        var w := MonthWrite(identity, replace, candles, order, parts, clock, k);
        var rowCount := WriteMonth(w);
        WritesOfExtend(writes, identity, replace, candles, order, clock, k, w);
        RunAppend(old(Contents()), writes, w, digest);
        writes, total := writes + [w], total + rowCount;
      }
      assert order[..|order|] == order;
      PartitionsConserve(order, candles);
    }

    /** Writes month after month. Partition `k` reads the clock as `clock(k)`; `identity` is what
        the instrument key resolves to, if it is well formed. */
    method WriteCandles(identity: Option<Identity>, replace: bool, candles: seq<Bar>, clock: nat -> (int, int))
      returns (result: Result<nat, Error>, ghost order: seq<Month>, ghost writes: seq<PartWrite>)
      requires Valid()
      modifies this
      ensures Valid()
      ensures result.Err? <==> candles != [] && identity.None?
      ensures history == old(history) + writes
      ensures result.Err? || candles == [] ==> Contents() == old(Contents()) && writes == []
      ensures result.Ok? ==> result.value == |candles|
      ensures result.Ok? && candles != [] ==>
                && Distinct(order) && (forall b :: b in candles ==> MonthOf(b.time) in order)
                && WritesOf(writes, identity.value, replace, candles, order, clock)
                && Contents() == Run(old(Contents()), PartsOf(writes, digest))
    {
      order, writes := [], [];
      if candles == [] {
        return Ok(0), order, writes;
      }
      if identity.None? {
        return Err(InvalidInstrumentKey), order, writes;
      }
      var months, parts := PartitionByMonth(candles);
      var total;
      total, writes := WriteMonths(identity.value, replace, candles, months, parts, clock);
      RunConcat(Store(map[], []), history, writes, digest);
      history := history + writes;
      order, result := months, Ok(total);
    }

    /** Reads through the pruned manifest list, and returns what a scan of every file would. */
    method ReadCandles(q: Query) returns (result: Result<seq<Bar>, Error>)
      requires Valid()
      ensures Present(AllManifests(Contents(), q), files) && result == FullScan(Contents(), q)
      ensures forall t :: Returns(result, t) <==> Answers(history, digest, q, t)
      ensures result.Ok? ==> forall b :: b in result.value ==> exists k: nat :: Origin(history, digest, q, k, b)
      ensures result.Ok? ==> result.value != [] && forall i, j :: 0 <= i < j < |result.value| ==> result.value[i].time < result.value[j].time
    {
      result := ReadPruned(q);
      ReadsHistory(history, digest, q, Contents(), result);
      ScanFollowsHistory(history, digest, q, Contents(), result);
    }

    method ReadPruned(q: Query) returns (result: Result<seq<Bar>, Error>)
      requires ValidStore(Contents())
      ensures Present(AllManifests(Contents(), q), files) && result == FullScan(Contents(), q)
    {
      PrunedRowsAreAllRows(Contents(), q);
      var manifests := ListManifests(Contents(), q);
      if manifests == [] {
        return Err(Unavailable);
      }
      var rows := ReadRows(manifests, q);
      if rows.None? || rows.value == [] {
        return Err(Unavailable);
      }
      var canonical := DeduplicateRows(rows.value);
      result := Ok(Bars(canonical));
    }

    /** The rows of the listed files in the window, or nothing when a file is missing. */
    method ReadRows(manifests: seq<Manifest>, q: Query) returns (rows: Option<seq<Row>>)
      ensures rows.Some? <==> Present(manifests, files)
      ensures rows.Some? ==> rows.value == RowsIn(manifests, files, q)
    {
      var all: seq<Row> := [];
      for i := 0 to |manifests|
        invariant Present(manifests[..i], files) && all == RowsIn(manifests[..i], files, q)
      {
        var m := manifests[i];
        if m.path !in files {
          return None;
        }
        assert manifests[..i + 1][..i] == manifests[..i];
        all := all + Filter(files[m.path], InWindow(q));
      }
      assert manifests[..|manifests|] == manifests;
      rows := Some(all);
    }
  }
}
