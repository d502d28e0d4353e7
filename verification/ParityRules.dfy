/** Exported tables and what a match between two of them means, in terms of their rows and cells. */
module ParityRules {
  import opened Paths
  import opened Prelude
  import opened Sorting

  /** A CSV record; an absent key is a missing value. */
  type Row = map<string, string>

  datatype Table = Table(fields: seq<string>, rows: seq<Row>)

  /** Text and number handling: `strip`, `lower`, `_compare_csv_float`, `_compare_csv_time_ms`, and
      `math.isclose` at the given tolerances. */
  datatype Reader = Reader(
    strip: string -> string,
    lower: string -> string,
    number: Option<string> -> Option<real>,
    time: Option<string> -> Option<int>,
    close: (real, real) -> bool)

  datatype Window = Window(start: Option<int>, end: Option<int>)

  datatype Options = Options(
    tvTime: string, opTime: string, exclude: set<string>, window: Window,
    dropBlank: bool, closedOnly: bool, exactColumns: bool)

  // ----- cells

  ghost function Held(row: Row, column: string): Option<string> {
    if column in row then Some(row[column]) else None
  }

  /** Absent, or one of the words for nothing; "na" is one of them in comparisons by time only. */
  ghost predicate HoldsNothing(r: Reader, byTime: bool, row: Row, column: string) {
    column in row ==>
      var word := r.lower(r.strip(row[column]));
      word == "" || word == "nan" || word == "none" || word == "null" || (byTime && word == "na")
  }

  /** Two cells that hold something agree as numbers when both read as one, and else as text, in which
      comparisons by order ignore case. */
  ghost predicate SameValue(r: Reader, byTime: bool, x: string, y: string) {
    if r.number(Some(x)).Some? && r.number(Some(y)).Some?
    then r.close(r.number(Some(x)).value, r.number(Some(y)).value)
    else if byTime then r.strip(x) == r.strip(y)
    else r.lower(r.strip(x)) == r.lower(r.strip(y))
  }

  /** Both hold nothing, or neither does and their values agree. */
  ghost predicate CellsAgree(r: Reader, byTime: bool, tv: Row, op: Row, column: string) {
    && (HoldsNothing(r, byTime, tv, column) <==> HoldsNothing(r, byTime, op, column))
    && (HoldsNothing(r, byTime, tv, column) || SameValue(r, byTime, tv[column], op[column]))
  }

  /** Positions of the cells that differ, by column and row. */
  ghost function Differing(r: Reader, byTime: bool, columns: seq<string>, tv: seq<Row>, op: seq<Row>): set<(int, int)> {
    set c, i | 0 <= c < |columns| && 0 <= i < |tv| && i < |op| && !CellsAgree(r, byTime, tv[i], op[i], columns[c]) :: (c, i)
  }

  // ----- trades, compared in a canonical order

  ghost function TimeIn(r: Reader, row: Row, column: string): int {
    match r.time(Held(row, column))
    case Some(t) => if t != 0 then t else -1
    case None => -1
  }

  ghost function NumberIn(r: Reader, row: Row, column: string): real {
    match r.number(Held(row, column))
    case Some(x) => x
    case None => 0.0
  }

  ghost function Size(r: Reader, row: Row): real {
    var x := NumberIn(r, row, "qty");
    if x >= 0.0 then x else 0.0 - x
  }

  ghost function WordIn(row: Row, column: string): string {
    if column in row then row[column] else ""
  }

  /** Decided by a first comparison, or in a tie by what remains. */
  ghost predicate Decided(before: bool, tie: bool, rest: bool) {
    before || (tie && rest)
  }

  /** By entry, exit, status, direction, entry price, size from large to small, exit price and profit. */
  ghost predicate NotAfter(r: Reader, a: Row, b: Row) {
    && var entryA, entryB := TimeIn(r, a, "entry_time_ms"), TimeIn(r, b, "entry_time_ms");
    && var exitA, exitB := TimeIn(r, a, "exit_time_ms"), TimeIn(r, b, "exit_time_ms");
    Decided(entryA < entryB, entryA == entryB, Decided(exitA < exitB, exitA == exitB, WordsNotAfter(r, a, b)))
  }

  ghost predicate WordsNotAfter(r: Reader, a: Row, b: Row) {
    Decided(StringBefore(WordIn(a, "status"), WordIn(b, "status")), WordIn(a, "status") == WordIn(b, "status"),
            Decided(StringBefore(WordIn(a, "direction"), WordIn(b, "direction")), WordIn(a, "direction") == WordIn(b, "direction"),
                    NumbersNotAfter(r, a, b)))
  }

  ghost predicate NumbersNotAfter(r: Reader, a: Row, b: Row) {
    && var entryA, entryB := NumberIn(r, a, "entry_price"), NumberIn(r, b, "entry_price");
    && var exitA, exitB := NumberIn(r, a, "exit_price"), NumberIn(r, b, "exit_price");
    Decided(entryA < entryB, entryA == entryB,
            Decided(Size(r, a) > Size(r, b), Size(r, a) == Size(r, b),
                    Decided(exitA < exitB, exitA == exitB, NumberIn(r, a, "net_profit") <= NumberIn(r, b, "net_profit"))))
  }

  /** Rows that no comparison separates. */
  ghost predicate Tied(r: Reader, a: Row, b: Row) {
    NotAfter(r, a, b) && NotAfter(r, b, a)
  }

  ghost function TiedWith(r: Reader, a: Row): Row -> bool {
    (b: Row) => Tied(r, a, b)
  }

  /** The rows in trade order, ties in the given one; as given when the four trade columns are not all there. */
  ghost predicate TradeOrder(r: Reader, t: Table, rows: seq<Row>) {
    if "entry_time_ms" in t.fields && "exit_time_ms" in t.fields && "direction" in t.fields && "qty" in t.fields
    then
      && multiset(rows) == multiset(t.rows)
      && (forall i, j :: 0 <= i < j < |rows| ==> NotAfter(r, rows[i], rows[j]))
      && (forall a :: a in t.rows ==> Filter(rows, TiedWith(r, a)) == Filter(t.rows, TiedWith(r, a)))
    else rows == t.rows
  }

  /** The compared columns: in both tables and not excluded. */
  ghost predicate TradeColumns(tv: Table, op: Table, exclude: set<string>, columns: seq<string>) {
    && (forall i, j :: 0 <= i < j < |columns| ==> columns[i] != columns[j])
    && (forall f :: f in columns <==> f in tv.fields && f in op.fields && f !in exclude)
  }

  /** The same columns, one at least, as many rows, one at least, and agreement row by row. */
  ghost predicate TradesAgree(r: Reader, tv: Table, op: Table, exclude: set<string>, xs: seq<Row>, ys: seq<Row>) {
    && (forall f :: f !in exclude ==> (f in tv.fields <==> f in op.fields))
    && (exists f :: f in tv.fields && f !in exclude)
    && |xs| == |ys| > 0
    && TradeCellsAgree(r, tv, exclude, xs, ys)
  }

  ghost predicate TradeCellsAgree(r: Reader, tv: Table, exclude: set<string>, xs: seq<Row>, ys: seq<Row>)
    requires |xs| == |ys|
  {
    forall i, f :: 0 <= i < |xs| && f in tv.fields && f !in exclude ==> CellsAgree(r, false, xs[i], ys[i], f)
  }

  // ----- plots and equity, compared by time

  ghost predicate TvColumn(tv: Table, o: Options, f: string) {
    f in tv.fields && f !in o.exclude && f != o.tvTime
  }

  ghost predicate OpColumn(op: Table, o: Options, f: string) {
    f in op.fields && f !in o.exclude && f != o.opTime
  }

  ghost predicate TimedColumnsAre(tv: Table, op: Table, o: Options, columns: seq<string>) {
    && (forall i, j :: 0 <= i < j < |columns| ==> columns[i] != columns[j])
    && (forall f :: f in columns <==> TvColumn(tv, o, f) && OpColumn(op, o, f))
  }

  /** The row has the time `t`, and that lies in the window. */
  ghost predicate Stamped(r: Reader, row: Row, column: string, w: Window, t: int) {
    && r.time(Held(row, column)) == Some(t)
    && (w.start.Some? ==> w.start.value <= t) && (w.end.Some? ==> t < w.end.value)
  }

  ghost predicate Valueless(r: Reader, tv: Table, op: Table, o: Options, row: Row) {
    o.dropBlank && forall f :: TvColumn(tv, o, f) && OpColumn(op, o, f) ==> HoldsNothing(r, true, row, f)
  }

  ghost predicate TvRow(r: Reader, tv: Table, op: Table, o: Options, row: Row, t: int) {
    row in tv.rows && Stamped(r, row, o.tvTime, o.window, t) && !Valueless(r, tv, op, o, row)
  }

  ghost predicate OpRow(r: Reader, op: Table, o: Options, row: Row, t: int) {
    row in op.rows && Stamped(r, row, o.opTime, o.window, t)
  }

  /** A TradingView row without values takes its time out of the comparison. */
  ghost predicate TakenOut(r: Reader, tv: Table, op: Table, o: Options, t: int) {
    exists row :: row in tv.rows && Stamped(r, row, o.tvTime, o.window, t) && Valueless(r, tv, op, o, row)
  }

  ghost predicate SomeStamped(r: Reader, rows: seq<Row>, column: string, w: Window, t: int) {
    exists row :: row in rows && Stamped(r, row, column, w, t)
  }

  ghost predicate Latest(r: Reader, rows: seq<Row>, column: string, w: Window, t: int) {
    SomeStamped(r, rows, column, w, t) && forall u :: SomeStamped(r, rows, column, w, u) ==> u <= t
  }

  /** The time both tables end at, when only closed bars are wanted and the window has no end. */
  ghost predicate StillOpen(r: Reader, tv: Table, op: Table, o: Options, t: int) {
    && o.closedOnly && o.window.end.None?
    && Latest(r, tv.rows, o.tvTime, o.window, t) && Latest(r, op.rows, o.opTime, o.window, t)
  }

  ghost predicate TvHas(r: Reader, tv: Table, op: Table, o: Options, t: int) {
    (exists row :: TvRow(r, tv, op, o, row, t)) && !StillOpen(r, tv, op, o, t)
  }

  ghost predicate OpHas(r: Reader, tv: Table, op: Table, o: Options, t: int) {
    (exists row :: OpRow(r, op, o, row, t)) && !TakenOut(r, tv, op, o, t) && !StillOpen(r, tv, op, o, t)
  }

  ghost predicate TimesReadable(r: Reader, rows: seq<Row>, column: string) {
    forall i :: 0 <= i < |rows| ==> r.time(Held(rows[i], column)).Some?
  }

  /** No time in the window occurs twice. */
  ghost predicate TimesDistinct(r: Reader, rows: seq<Row>, column: string, w: Window) {
    forall i, j, t :: 0 <= i < j < |rows| ==> !(Stamped(r, rows[i], column, w, t) && Stamped(r, rows[j], column, w, t))
  }

  ghost function TvRowsAt(r: Reader, tv: Table, op: Table, o: Options, t: int): Row -> bool {
    (row: Row) => TvRow(r, tv, op, o, row, t)
  }

  ghost function OpRowsAt(r: Reader, op: Table, o: Options, t: int): Row -> bool {
    (row: Row) => OpRow(r, op, o, row, t)
  }

  /** The last row of a list that answers for a time. */
  ghost predicate LastAt(rows: seq<Row>, answers: Row -> bool, row: Row) {
    exists k :: 0 <= k < |rows| && rows[k] == row && answers(row) && forall j :: k < j < |rows| ==> !answers(rows[j])
  }

  /** The compared times in order, and the rows compared at each. */
  ghost predicate TimedRowsAre(r: Reader, tv: Table, op: Table, o: Options, times: seq<int>, xs: seq<Row>, ys: seq<Row>) {
    && (forall i, j :: 0 <= i < j < |times| ==> times[i] < times[j])
    && (forall t :: t in times <==> TvHas(r, tv, op, o, t) && OpHas(r, tv, op, o, t))
    && |xs| == |ys| == |times|
    && (forall i :: 0 <= i < |times| ==> LastAt(tv.rows, TvRowsAt(r, tv, op, o, times[i]), xs[i]))
    && (forall i :: 0 <= i < |times| ==> LastAt(op.rows, OpRowsAt(r, op, o, times[i]), ys[i]))
  }

  ghost predicate SameColumns(tv: Table, op: Table, o: Options) {
    && (forall f :: TvColumn(tv, o, f) ==> OpColumn(op, o, f))
    && (o.exactColumns ==> forall f :: OpColumn(op, o, f) ==> TvColumn(tv, o, f))
  }

  ghost predicate ColumnsMatch(tv: Table, op: Table, o: Options) {
    && SameColumns(tv, op, o)
    && (exists f :: TvColumn(tv, o, f) && OpColumn(op, o, f))
  }

  /** Two rows of a time that both sides have. */
  ghost predicate Compared(r: Reader, tv: Table, op: Table, o: Options, a: Row, b: Row, t: int) {
    TvRow(r, tv, op, o, a, t) && OpRow(r, op, o, b, t) && TvHas(r, tv, op, o, t) && OpHas(r, tv, op, o, t)
  }

  ghost predicate TimedCellsAgree(r: Reader, tv: Table, op: Table, o: Options) {
    forall a, b, t, f :: Compared(r, tv, op, o, a, b, t) && TvColumn(tv, o, f) && OpColumn(op, o, f) ==> CellsAgree(r, true, a, b, f)
  }

  ghost predicate TimedAgree(r: Reader, tv: Table, op: Table, o: Options) {
    && ColumnsMatch(tv, op, o)
    && TimesReadable(r, tv.rows, o.tvTime) && TimesReadable(r, op.rows, o.opTime)
    && TimesDistinct(r, tv.rows, o.tvTime, o.window) && TimesDistinct(r, op.rows, o.opTime, o.window)
    && (forall t :: TvHas(r, tv, op, o, t) <==> OpHas(r, tv, op, o, t)) && (exists t :: TvHas(r, tv, op, o, t))
    && TimedCellsAgree(r, tv, op, o)
  }
}
