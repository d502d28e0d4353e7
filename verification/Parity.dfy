/** Parity comparison of openpine/cli/compare.py: TradingView and OpenPine exports compared row by row,
    keyed by time (plots, equity) or in a canonical trade order (trades). */
module Parity {
  import opened ParityRules
  import opened Paths
  import opened Prelude
  import opened Sorting
  import Ties

  // ----- tables and cells

  function Cell(row: Row, column: string): Option<string> {
    if column in row then Some(row[column]) else None
  }

  function Text(r: Reader, cell: Option<string>): string {
    if cell.None? then "" else r.strip(cell.value)
  }

  const BLANK_BY_TIME: set<string> := {"", "na", "nan", "none", "null"}

  const BLANK_BY_ORDER: set<string> := {"", "nan", "none", "null"}

  predicate Blank(r: Reader, words: set<string>, cell: Option<string>) {
    cell.None? || r.lower(Text(r, cell)) in words
  }

  /** Blank cells equal only blank cells, numbers compare within tolerance, other cells as text. */
  predicate CellsEqual(r: Reader, words: set<string>, fold: string -> string, tv: Option<string>, op: Option<string>) {
    if Blank(r, words, tv) || Blank(r, words, op) then Blank(r, words, tv) && Blank(r, words, op)
    else if r.number(tv).Some? && r.number(op).Some? then r.close(r.number(tv).value, r.number(op).value)
    else fold(Text(r, tv)) == fold(Text(r, op))
  }

  function SameText(): string -> string {
    (s: string) => s
  }

  lemma CellsEqualReflexive(r: Reader, words: set<string>, fold: string -> string, cell: Option<string>)
    requires CloseToItself(r)
    ensures CellsEqual(r, words, fold, cell, cell)
  {
    if r.number(cell).Some? {
      var x: real := r.number(cell).value;
      assert r.close(x, x);
    }
  }

  ghost predicate CloseToItself(r: Reader) {
    forall x: real :: r.close(x, x)
  }

  type CellTest = (Option<string>, Option<string>) -> bool

  function ByOrderTest(r: Reader): CellTest {
    (tv: Option<string>, op: Option<string>) => CellsEqual(r, BLANK_BY_ORDER, r.lower, tv, op)
  }

  function ByTimeTest(r: Reader): CellTest {
    (tv: Option<string>, op: Option<string>) => CellsEqual(r, BLANK_BY_TIME, SameText(), tv, op)
  }

  lemma BlankExactly(r: Reader, row: Row, column: string)
    ensures Blank(r, BLANK_BY_TIME, Cell(row, column)) <==> HoldsNothing(r, true, row, column)
    ensures Blank(r, BLANK_BY_ORDER, Cell(row, column)) <==> HoldsNothing(r, false, row, column)
  {
  }

  /** The cell tests decide agreement. */
  lemma CellTestsExactly(r: Reader, tv: Row, op: Row, column: string)
    ensures ByTimeTest(r)(Cell(tv, column), Cell(op, column)) <==> CellsAgree(r, true, tv, op, column)
    ensures ByOrderTest(r)(Cell(tv, column), Cell(op, column)) <==> CellsAgree(r, false, tv, op, column)
  {
    BlankExactly(r, tv, column);
    BlankExactly(r, op, column);
  }

  function TestFor(r: Reader, byTime: bool): CellTest {
    if byTime then ByTimeTest(r) else ByOrderTest(r)
  }

  // ----- counting cells

  /** Positions, column by column, of the cells that differ, among the first `c` columns and the
      first `i` rows of the next one. */
  ghost function UnequalBefore(columns: nat, rows: nat, eq: (int, int) -> bool, c: int, i: int): set<(int, int)> {
    set x, y | 0 <= x < columns && 0 <= y < rows && (x < c || (x == c && y < i)) && !eq(x, y) :: (x, y)
  }

  ghost function Unequal(columns: nat, rows: nat, eq: (int, int) -> bool): set<(int, int)> {
    set x, y | 0 <= x < columns && 0 <= y < rows && !eq(x, y) :: (x, y)
  }

  /** The nested comparison loops: every cell is counted once, and every unequal one as a mismatch. */
  method CountCells(columns: nat, rows: nat, eq: (int, int) -> bool) returns (total: nat, mismatches: nat)
    ensures total == columns * rows
    ensures mismatches == |Unequal(columns, rows, eq)|
  {
    total, mismatches := 0, 0;
    for c := 0 to columns
      invariant total == c * rows
      invariant mismatches == |UnequalBefore(columns, rows, eq, c, 0)|
    {
      for i := 0 to rows
        invariant total == c * rows + i
        invariant mismatches == |UnequalBefore(columns, rows, eq, c, i)|
      {
        CountStep(columns, rows, eq, c, i);
        total := total + 1;
        if !eq(c, i) {
          mismatches := mismatches + 1;
        }
      }
      assert UnequalBefore(columns, rows, eq, c, rows) == UnequalBefore(columns, rows, eq, c + 1, 0);
      assert c * rows + rows == (c + 1) * rows;
    }
    assert UnequalBefore(columns, rows, eq, columns, 0) == Unequal(columns, rows, eq);
  }

  lemma CountStep(columns: nat, rows: nat, eq: (int, int) -> bool, c: nat, i: nat)
    requires c < columns && i < rows
    ensures |UnequalBefore(columns, rows, eq, c, i + 1)| ==
            |UnequalBefore(columns, rows, eq, c, i)| + if eq(c, i) then 0 else 1
  {
    var before := UnequalBefore(columns, rows, eq, c, i);
    if eq(c, i) {
      assert UnequalBefore(columns, rows, eq, c, i + 1) == before;
    } else {
      assert (c, i) !in before;
      assert UnequalBefore(columns, rows, eq, c, i + 1) == before + {(c, i)};
    }
  }

  lemma NoneUnequalExactly(columns: nat, rows: nat, eq: (int, int) -> bool)
    ensures |Unequal(columns, rows, eq)| == 0 <==> forall x, y :: 0 <= x < columns && 0 <= y < rows ==> eq(x, y)
  {
    var bad := Unequal(columns, rows, eq);
    if |bad| == 0 {
      assert forall p :: p !in bad;
      forall x, y | 0 <= x < columns && 0 <= y < rows
        ensures eq(x, y)
      {
        assert (x, y) !in bad;
      }
    }
    if forall x, y :: 0 <= x < columns && 0 <= y < rows ==> eq(x, y) {
      assert bad == {};
    }
  }

  // ----- columns

  function ValueFields(t: Table, exclude: set<string>): set<string> {
    (set f | f in t.fields) - exclude
  }

  function WithoutRepeats(fields: seq<string>): (r: seq<string>)
    ensures NoRepeats(r) && forall f :: f in r <==> f in fields
  {
    if fields == [] then []
    else
      assert fields == fields[..|fields| - 1] + [fields[|fields| - 1]];
      var front := WithoutRepeats(fields[..|fields| - 1]);
      if fields[|fields| - 1] in front then front else front + [fields[|fields| - 1]]
  }

  function Among(names: set<string>): string -> bool {
    (f: string) => f in names
  }

  /** `sorted(tv_value_fields & op_value_fields)` */
  function CommonColumns(tv: Table, tvNames: set<string>, opNames: set<string>): seq<string> {
    SortBy(Filter(WithoutRepeats(tv.fields), Among(tvNames * opNames)), LexLe)
  }

  lemma CommonColumnsExactly(tv: Table, tvNames: set<string>, opNames: set<string>)
    requires forall f :: f in tvNames ==> f in tv.fields
    ensures var columns := CommonColumns(tv, tvNames, opNames);
            NoRepeats(columns) && forall f :: f in columns <==> f in tvNames * opNames
  {
    var kept := Filter(WithoutRepeats(tv.fields), Among(tvNames * opNames));
    FilterNoRepeats(WithoutRepeats(tv.fields), Among(tvNames * opNames));
    PermutationNoRepeats(kept, SortBy(kept, LexLe));
    MultisetMembers(SortBy(kept, LexLe), kept);
  }

  // ----- summaries

  datatype Tag =
    | NoCommonColumns | ColumnSetMismatch | TimeWindowMismatch | DuplicateTimestamps | InvalidTimestamps
    | RowCountMismatch | NoComparableCells | ValueMismatch

  /** `classification == []` stands for the text "match". */
  datatype Summary = Summary(matched: bool, classification: seq<Tag>, columns: nat, total: nat, mismatches: nat)

  /** The classification tags, in the order they are appended. */
  method Classify(noColumns: bool, columnSets: bool, window: bool, duplicates: bool, invalid: bool, rowCount: bool,
                  noCells: bool, values: bool)
    returns (tags: seq<Tag>)
    ensures tags == [] <==>
            !noColumns && !columnSets && !window && !duplicates && !invalid && !rowCount && !noCells && !values
    ensures NoCommonColumns in tags <==> noColumns
    ensures ColumnSetMismatch in tags <==> columnSets
    ensures TimeWindowMismatch in tags <==> window
    ensures DuplicateTimestamps in tags <==> duplicates
    ensures InvalidTimestamps in tags <==> invalid
    ensures RowCountMismatch in tags <==> rowCount
    ensures NoComparableCells in tags <==> noCells
    ensures ValueMismatch in tags <==> values && !noCells
  {
    tags := Append([], noColumns, NoCommonColumns);
    tags := Append(tags, columnSets, ColumnSetMismatch);
    tags := Append(tags, window, TimeWindowMismatch);
    tags := Append(tags, duplicates, DuplicateTimestamps);
    tags := Append(tags, invalid, InvalidTimestamps);
    tags := Append(tags, rowCount, RowCountMismatch);
    tags := Append(tags, noCells, NoComparableCells);
    tags := Append(tags, values && !noCells, ValueMismatch);
  }

  method Append(before: seq<Tag>, condition: bool, tag: Tag) returns (tags: seq<Tag>)
    ensures forall t :: t in tags <==> t in before || (condition && t == tag)
    ensures tags == [] <==> before == [] && !condition
  {
    tags := before;
    if condition {
      tags := tags + [tag];
    }
  }

  // ----- canonical trade order

  datatype TradeKey = TradeKey(
    entry: int, exit: int, status: string, direction: string,
    entryPrice: real, negatedQty: real, exitPrice: real, netProfit: real)

  const TRADE_COLUMNS: set<string> := {"entry_time_ms", "exit_time_ms", "direction", "qty"}

  function TimeOr(r: Reader, row: Row, column: string): int {
    var t := r.time(Cell(row, column));
    if t.None? || t.value == 0 then -1 else t.value
  }

  function NumberOr(r: Reader, row: Row, column: string): real {
    var x := r.number(Cell(row, column));
    if x.None? then 0.0 else x.value
  }

  function TextOr(row: Row, column: string): string {
    if column in row then row[column] else ""
  }

  function KeyOf(r: Reader, row: Row): TradeKey {
    TradeKey(TimeOr(r, row, "entry_time_ms"), TimeOr(r, row, "exit_time_ms"), TextOr(row, "status"), TextOr(row, "direction"),
             NumberOr(r, row, "entry_price"), -Abs(NumberOr(r, row, "qty")), NumberOr(r, row, "exit_price"),
             NumberOr(r, row, "net_profit"))
  }

  /** Tuple order. */
  predicate KeyLe(a: TradeKey, b: TradeKey) {
    if a.entry != b.entry then a.entry < b.entry
    else if a.exit != b.exit then a.exit < b.exit
    else if a.status != b.status then LexLe(a.status, b.status)
    else if a.direction != b.direction then LexLe(a.direction, b.direction)
    else NumbersLe(a, b)
  }

  predicate NumbersLe(a: TradeKey, b: TradeKey) {
    if a.entryPrice != b.entryPrice then a.entryPrice < b.entryPrice
    else if a.negatedQty != b.negatedQty then a.negatedQty < b.negatedQty
    else if a.exitPrice != b.exitPrice then a.exitPrice < b.exitPrice
    else a.netProfit <= b.netProfit
  }

  lemma KeyTotal(a: TradeKey, b: TradeKey)
    ensures KeyLe(a, b) || KeyLe(b, a)
    ensures KeyLe(a, b) && KeyLe(b, a) ==> a == b
  {
    LexTotal(a.status, b.status);
    LexTotal(a.direction, b.direction);
  }

  lemma KeyTransitive(a: TradeKey, b: TradeKey, c: TradeKey)
    requires KeyLe(a, b) && KeyLe(b, c)
    ensures KeyLe(a, c)
  {
    LexTotal(a.status, b.status);
    LexTotal(b.status, c.status);
    LexTotal(a.direction, b.direction);
    LexTotal(b.direction, c.direction);
    if LexLe(a.status, b.status) && LexLe(b.status, c.status) {
      LexTransitive(a.status, b.status, c.status);
    }
    if LexLe(a.direction, b.direction) && LexLe(b.direction, c.direction) {
      LexTransitive(a.direction, b.direction, c.direction);
    }
  }

  lemma KeyOrderIsLinear()
    ensures Ties.LinearOrder(KeyLe)
  {
    forall a: TradeKey, b: TradeKey
      ensures KeyLe(a, b) || KeyLe(b, a)
      ensures KeyLe(a, b) && KeyLe(b, a) ==> a == b
    {
      KeyTotal(a, b);
    }
    forall a: TradeKey, b: TradeKey, c: TradeKey | KeyLe(a, b) && KeyLe(b, c)
      ensures KeyLe(a, c)
    {
      KeyTransitive(a, b, c);
    }
  }

  function Keyed(r: Reader): Row -> TradeKey {
    (row: Row) => KeyOf(r, row)
  }

  function ByKey(r: Reader): (Row, Row) -> bool {
    Ties.OrderBy(Keyed(r), KeyLe)
  }

  /** `_canonical_trade_order_rows`: sorting by key and then by position is a stable sort by key. */
  function Canonical(r: Reader, t: Table): seq<Row> {
    if TRADE_COLUMNS <= (set f | f in t.fields) then SortBy(t.rows, ByKey(r)) else t.rows
  }

  lemma NumbersLeExactly(r: Reader, a: Row, b: Row)
    ensures NumbersLe(KeyOf(r, a), KeyOf(r, b)) <==> NumbersNotAfter(r, a, b)
  {
  }

  lemma KeyLeExactly(r: Reader, a: Row, b: Row)
    ensures ByKey(r)(a, b) <==> NotAfter(r, a, b)
  {
    NumbersLeExactly(r, a, b);
    KeyFields(r, a);
    KeyFields(r, b);
    LexLeExactly(WordIn(a, "status"), WordIn(b, "status"));
    LexLeExactly(WordIn(a, "direction"), WordIn(b, "direction"));
    WordBeforeItself(WordIn(a, "status"));
    WordBeforeItself(WordIn(a, "direction"));
    assert ByKey(r)(a, b) == KeyLe(KeyOf(r, a), KeyOf(r, b));
    var x, y := KeyOf(r, a), KeyOf(r, b);
    assert WordsNotAfter(r, a, b) <==> (if x.status != y.status then LexLe(x.status, y.status)
      else if x.direction != y.direction then LexLe(x.direction, y.direction) else NumbersLe(x, y));
  }

  lemma KeyFields(r: Reader, row: Row)
    ensures var k := KeyOf(r, row);
            && k.entry == TimeIn(r, row, "entry_time_ms") && k.exit == TimeIn(r, row, "exit_time_ms")
            && k.status == WordIn(row, "status") && k.direction == WordIn(row, "direction")
  {
    assert Cell(row, "entry_time_ms") == Held(row, "entry_time_ms");
    assert Cell(row, "exit_time_ms") == Held(row, "exit_time_ms");
  }

  lemma WordBeforeItself(s: string)
    ensures !StringBefore(s, s)
  {
  }

  lemma ByKeyOrders(r: Reader)
    ensures TotalPreorder(ByKey(r))
  {
    KeyOrderIsLinear();
    Ties.OrderByOrders(Keyed(r), KeyLe);
  }

  /** The canonical order is trade order. */
  lemma CanonicalIsTradeOrder(r: Reader, t: Table)
    ensures TradeOrder(r, t, Canonical(r, t))
  {
    if TRADE_COLUMNS <= (set f | f in t.fields) {
      var rows := Canonical(r, t);
      ByKeyOrders(r);
      SortSorts(t.rows, ByKey(r));
      forall i, j | 0 <= i < j < |rows|
        ensures NotAfter(r, rows[i], rows[j])
      {
        KeyLeExactly(r, rows[i], rows[j]);
      }
      forall a | a in t.rows
        ensures Filter(rows, TiedWith(r, a)) == Filter(t.rows, TiedWith(r, a))
      {
        TiesKeepOrder(r, t.rows, a);
      }
    }
    FourColumns(t);
  }

  lemma FourColumns(t: Table)
    ensures TRADE_COLUMNS <= (set f | f in t.fields) <==>
            "entry_time_ms" in t.fields && "exit_time_ms" in t.fields && "direction" in t.fields && "qty" in t.fields
  {
  }

  lemma TiesKeepOrder(r: Reader, rows: seq<Row>, a: Row)
    ensures Filter(SortBy(rows, ByKey(r)), TiedWith(r, a)) == Filter(rows, TiedWith(r, a))
  {
    ByKeyOrders(r);
    var tied := Filter(rows, TiedWith(r, a));
    FilterSort(rows, ByKey(r), TiedWith(r, a));
    forall i, j | 0 <= i < j < |tied|
      ensures ByKey(r)(tied[i], tied[j])
    {
      assert tied[i] in tied && tied[j] in tied;
      KeyLeExactly(r, tied[i], a);
      KeyLeExactly(r, a, tied[j]);
    }
    SortOfSorted(tied, ByKey(r));
  }

  /** Ties are equal rows. */
  ghost predicate KeysIdentify(r: Reader, rows: seq<Row>) {
    forall a, b :: a in rows && b in rows && Tied(r, a, b) ==> a == b
  }

  lemma SameKeyExactly(r: Reader, a: Row, b: Row)
    ensures KeyOf(r, a) == KeyOf(r, b) <==> Tied(r, a, b)
  {
    KeyLeExactly(r, a, b);
    KeyLeExactly(r, b, a);
    KeyTotal(KeyOf(r, a), KeyOf(r, b));
    assert ByKey(r)(a, b) == KeyLe(KeyOf(r, a), KeyOf(r, b)) && ByKey(r)(b, a) == KeyLe(KeyOf(r, b), KeyOf(r, a));
  }

  /** Without ties at different places, every row is identified. */
  lemma DistinctKeysIdentify(r: Reader, rows: seq<Row>)
    requires forall i, j :: 0 <= i < j < |rows| ==> !Tied(r, rows[i], rows[j])
    ensures KeysIdentify(r, rows)
  {
  }

  /** The canonical order ignores the given order exactly when ties are equal rows. */
  lemma OrderIgnoredExactly(r: Reader, rows: seq<Row>)
    ensures Ties.OrderIgnored(rows, Keyed(r), KeyLe) <==> KeysIdentify(r, rows)
  {
    KeyOrderIsLinear();
    Ties.OrderIgnoredExactly(rows, Keyed(r), KeyLe);
    KeysIdentifyExactly(r, rows);
  }

  lemma KeysIdentifyExactly(r: Reader, rows: seq<Row>)
    ensures KeysIdentify(r, rows) <==> Ties.KeysIdentify(rows, Keyed(r))
  {
    forall a, b | a in rows && b in rows
      ensures Keyed(r)(a) == Keyed(r)(b) <==> Tied(r, a, b)
    {
      SameKeyExactly(r, a, b);
    }
  }

  // ----- comparing two row lists cell by cell

  function Shorter(tv: seq<Row>, op: seq<Row>): nat {
    if |tv| <= |op| then |tv| else |op|
  }

  function CellAt(columns: seq<string>, tv: seq<Row>, op: seq<Row>, equal: CellTest): (int, int) -> bool {
    (c: int, i: int) =>
      0 <= c < |columns| && 0 <= i < |tv| && i < |op| && equal(Cell(tv[i], columns[c]), Cell(op[i], columns[c]))
  }

  predicate RowsAgree(columns: seq<string>, tv: Row, op: Row, equal: CellTest) {
    forall c :: c in columns ==> equal(Cell(tv, c), Cell(op, c))
  }

  lemma NoMismatchExactly(columns: seq<string>, tv: seq<Row>, op: seq<Row>, equal: CellTest)
    ensures |Unequal(|columns|, Shorter(tv, op), CellAt(columns, tv, op, equal))| == 0
            <==> forall i :: 0 <= i < Shorter(tv, op) ==> RowsAgree(columns, tv[i], op[i], equal)
  {
    var eq, count := CellAt(columns, tv, op, equal), Shorter(tv, op);
    NoneUnequalExactly(|columns|, count, eq);
    if forall x, y :: 0 <= x < |columns| && 0 <= y < count ==> eq(x, y) {
      forall i | 0 <= i < count
        ensures RowsAgree(columns, tv[i], op[i], equal)
      {
        forall name | name in columns
          ensures equal(Cell(tv[i], name), Cell(op[i], name))
        {
          var c :| 0 <= c < |columns| && columns[c] == name;
          assert eq(c, i);
        }
      }
    }
    if forall i :: 0 <= i < count ==> RowsAgree(columns, tv[i], op[i], equal) {
      forall x, y | 0 <= x < |columns| && 0 <= y < count
        ensures eq(x, y)
      {
        assert RowsAgree(columns, tv[y], op[y], equal);
        assert columns[x] in columns;
      }
    }
  }

  /** The cell counters of both comparisons. */
  method CompareCells(columns: seq<string>, tv: seq<Row>, op: seq<Row>, equal: CellTest) returns (total: nat, mismatches: nat)
    ensures total == |columns| * Shorter(tv, op)
    ensures total == 0 <==> columns == [] || tv == [] || op == []
    ensures mismatches == |Unequal(|columns|, Shorter(tv, op), CellAt(columns, tv, op, equal))|
    ensures mismatches == 0 <==> forall i :: 0 <= i < Shorter(tv, op) ==> RowsAgree(columns, tv[i], op[i], equal)
  {
    total, mismatches := CountCells(|columns|, Shorter(tv, op), CellAt(columns, tv, op, equal));
    NoMismatchExactly(columns, tv, op, equal);
    TotalZero(|columns|, Shorter(tv, op));
  }

  lemma TotalZero(columns: nat, rows: nat)
    ensures columns * rows == 0 <==> columns == 0 || rows == 0
  {
  }

  // ----- comparing by order

  /** Same length, and rows of equal position agree in every column. */
  ghost predicate ListsAgree(columns: seq<string>, tv: seq<Row>, op: seq<Row>, equal: CellTest) {
    |tv| == |op| && forall i :: 0 <= i < |tv| ==> RowsAgree(columns, tv[i], op[i], equal)
  }

  /** The same columns, at least one of them, the same number of rows, at least one, and agreement of the
      canonically ordered rows. */
  ghost predicate TradesMatch(r: Reader, tv: Table, op: Table, exclude: set<string>) {
    && ValueFields(tv, exclude) == ValueFields(op, exclude) != {}
    && tv.rows != []
    && ListsAgree(CommonColumns(tv, ValueFields(tv, exclude), ValueFields(op, exclude)),
                  Canonical(r, tv), Canonical(r, op), ByOrderTest(r))
  }

  /** `_compare_rows_by_order`. The counts are exact, and the status is "match" exactly when the
      classification is, which is exactly when columns, row counts and all cells agree and there is a cell. */
  method CompareByOrder(r: Reader, tv: Table, op: Table, exclude: set<string>)
    returns (s: Summary, ghost columns: seq<string>, ghost xs: seq<Row>, ghost ys: seq<Row>)
    ensures TradeOrder(r, tv, xs) && TradeOrder(r, op, ys) && TradeColumns(tv, op, exclude, columns)
    ensures s.columns == |columns|
    ensures s.total == |columns| * (if |tv.rows| <= |op.rows| then |tv.rows| else |op.rows|)
    ensures s.mismatches == |Differing(r, false, columns, xs, ys)|
    ensures s.matched <==> TradesAgree(r, tv, op, exclude, xs, ys)
    ensures s.matched <==> TradesMatch(r, tv, op, exclude)
    ensures s.matched <==> s.classification == []
    ensures TradeTags(s, forall f :: f !in exclude ==> (f in tv.fields <==> f in op.fields), |tv.rows| == |op.rows|)
  {
    s := CompareTrades(r, tv, op, exclude);
    columns := CommonColumns(tv, ValueFields(tv, exclude), ValueFields(op, exclude));
    xs, ys := Canonical(r, tv), Canonical(r, op);
    CanonicalIsTradeOrder(r, tv);
    CanonicalIsTradeOrder(r, op);
    TradeColumnsAre(tv, op, exclude);
    DifferingExactly(r, false, columns, xs, ys);
    TradesMatchExactly(r, tv, op, exclude);
  }

  method CompareTrades(r: Reader, tv: Table, op: Table, exclude: set<string>) returns (s: Summary)
    ensures s.columns == |CommonColumns(tv, ValueFields(tv, exclude), ValueFields(op, exclude))|
    ensures s.total == s.columns * (if |tv.rows| <= |op.rows| then |tv.rows| else |op.rows|)
    ensures s.mismatches == |Unequal(s.columns, Shorter(Canonical(r, tv), Canonical(r, op)),
                              CellAt(CommonColumns(tv, ValueFields(tv, exclude), ValueFields(op, exclude)),
                                     Canonical(r, tv), Canonical(r, op), ByOrderTest(r)))|
    ensures s.matched <==> TradesMatch(r, tv, op, exclude)
    ensures s.matched <==> s.classification == []
    ensures TradeTags(s, forall f :: f !in exclude ==> (f in tv.fields <==> f in op.fields), |tv.rows| == |op.rows|)
  {
    CommonColumnsEmpty(tv, ValueFields(tv, exclude), ValueFields(op, exclude));
    CanonicalLength(r, tv);
    CanonicalLength(r, op);
    ValueFieldsExactly(tv, op, exclude);
    s := CompareLists(CommonColumns(tv, ValueFields(tv, exclude), ValueFields(op, exclude)), ValueFields(tv, exclude),
                      ValueFields(op, exclude), Canonical(r, tv), Canonical(r, op), ByOrderTest(r));
  }

  /** What each tag of the classification means. */
  ghost predicate TradeTags(s: Summary, sameColumns: bool, sameLength: bool) {
    && (NoCommonColumns in s.classification <==> s.columns == 0)
    && (ColumnSetMismatch in s.classification <==> !sameColumns)
    && (RowCountMismatch in s.classification <==> !sameLength)
    && (NoComparableCells in s.classification <==> s.total == 0)
    && (ValueMismatch in s.classification <==> s.mismatches != 0)
    && TimeWindowMismatch !in s.classification && DuplicateTimestamps !in s.classification && InvalidTimestamps !in s.classification
  }

  lemma ValueFieldsExactly(tv: Table, op: Table, exclude: set<string>)
    ensures ValueFields(tv, exclude) == ValueFields(op, exclude) <==> forall f :: f !in exclude ==> (f in tv.fields <==> f in op.fields)
    ensures ValueFields(tv, exclude) != {} <==> exists f :: f in tv.fields && f !in exclude
  {
    var a, b := ValueFields(tv, exclude), ValueFields(op, exclude);
    assert forall f :: f in a <==> f in tv.fields && f !in exclude;
    assert forall f :: f in b <==> f in op.fields && f !in exclude;
    assert (forall f :: f in a <==> f in b) ==> a == b;
    assert (forall f :: f !in a) ==> a == {};
  }

  lemma TradeColumnsAre(tv: Table, op: Table, exclude: set<string>)
    ensures TradeColumns(tv, op, exclude, CommonColumns(tv, ValueFields(tv, exclude), ValueFields(op, exclude)))
  {
    CommonColumnsExactly(tv, ValueFields(tv, exclude), ValueFields(op, exclude));
  }

  lemma DifferingExactly(r: Reader, byTime: bool, columns: seq<string>, tv: seq<Row>, op: seq<Row>)
    ensures Differing(r, byTime, columns, tv, op) == Unequal(|columns|, Shorter(tv, op), CellAt(columns, tv, op, TestFor(r, byTime)))
  {
    forall c, i | 0 <= c < |columns| && 0 <= i < |tv| && i < |op|
      ensures CellAt(columns, tv, op, TestFor(r, byTime))(c, i) <==> CellsAgree(r, byTime, tv[i], op[i], columns[c])
    {
      CellTestsExactly(r, tv[i], op[i], columns[c]);
    }
  }

  lemma RowsAgreeExactly(r: Reader, byTime: bool, columns: seq<string>, tv: Row, op: Row)
    ensures RowsAgree(columns, tv, op, TestFor(r, byTime)) <==> forall f :: f in columns ==> CellsAgree(r, byTime, tv, op, f)
  {
    forall f | f in columns
      ensures TestFor(r, byTime)(Cell(tv, f), Cell(op, f)) <==> CellsAgree(r, byTime, tv, op, f)
    {
      CellTestsExactly(r, tv, op, f);
    }
  }

  lemma ListsAgreeExactly(r: Reader, columns: seq<string>, xs: seq<Row>, ys: seq<Row>)
    ensures ListsAgree(columns, xs, ys, ByOrderTest(r)) <==>
            |xs| == |ys| && forall i, f :: 0 <= i < |xs| && f in columns ==> CellsAgree(r, false, xs[i], ys[i], f)
  {
    if |xs| == |ys| {
      forall i | 0 <= i < |xs|
        ensures RowsAgree(columns, xs[i], ys[i], ByOrderTest(r)) <==> forall f :: f in columns ==> CellsAgree(r, false, xs[i], ys[i], f)
      {
        RowsAgreeExactly(r, false, columns, xs[i], ys[i]);
      }
    }
  }

  lemma TradesMatchExactly(r: Reader, tv: Table, op: Table, exclude: set<string>)
    ensures TradesMatch(r, tv, op, exclude) <==> TradesAgree(r, tv, op, exclude, Canonical(r, tv), Canonical(r, op))
  {
    var columns := CommonColumns(tv, ValueFields(tv, exclude), ValueFields(op, exclude));
    var xs, ys := Canonical(r, tv), Canonical(r, op);
    ValueFieldsExactly(tv, op, exclude);
    CanonicalLength(r, tv);
    if ValueFields(tv, exclude) == ValueFields(op, exclude) {
      SharedColumns(tv, op, exclude);
      TradeCellsExactly(r, tv, exclude, columns, xs, ys);
      assert ListsAgree(columns, xs, ys, ByOrderTest(r)) <==> |xs| == |ys| && TradeCellsAgree(r, tv, exclude, xs, ys);
    }
  }

  lemma SharedColumns(tv: Table, op: Table, exclude: set<string>)
    requires ValueFields(tv, exclude) == ValueFields(op, exclude)
    ensures forall f :: f in CommonColumns(tv, ValueFields(tv, exclude), ValueFields(op, exclude)) <==>
                        f in tv.fields && f !in exclude
  {
    CommonColumnsExactly(tv, ValueFields(tv, exclude), ValueFields(op, exclude));
  }

  lemma TradeCellsExactly(r: Reader, tv: Table, exclude: set<string>, columns: seq<string>, xs: seq<Row>, ys: seq<Row>)
    requires forall f :: f in columns <==> f in tv.fields && f !in exclude
    ensures ListsAgree(columns, xs, ys, ByOrderTest(r)) <==> |xs| == |ys| && TradeCellsAgree(r, tv, exclude, xs, ys)
  {
    ListsAgreeExactly(r, columns, xs, ys);
  }

  method CompareLists(columns: seq<string>, tvNames: set<string>, opNames: set<string>, tv: seq<Row>, op: seq<Row>,
                      equal: CellTest)
    returns (s: Summary)
    ensures s.columns == |columns| && s.total == |columns| * Shorter(tv, op)
    ensures s.mismatches == |Unequal(|columns|, Shorter(tv, op), CellAt(columns, tv, op, equal))|
    ensures s.matched <==> s.classification == []
    ensures s.matched <==> tvNames == opNames && columns != [] && tv != [] && ListsAgree(columns, tv, op, equal)
    ensures TradeTags(s, tvNames == opNames, |tv| == |op|)
  {
    var total, mismatches := CompareCells(columns, tv, op, equal);
    var missing, extra := tvNames - opNames, opNames - tvNames;
    SameSets(tvNames, opNames);
    var tags := Classify(columns == [], missing != {} || extra != {}, false, false, false, |tv| != |op|,
                         total == 0, mismatches != 0);
    s := Summary(total != 0 && mismatches == 0 && |tv| == |op| && missing == {} && extra == {}, tags,
                 |columns|, total, mismatches);
  }

  lemma SameSets<T>(a: set<T>, b: set<T>)
    ensures a - b == {} && b - a == {} <==> a == b
  {
  }

  lemma CommonColumnsEmpty(tv: Table, tvNames: set<string>, opNames: set<string>)
    requires forall f :: f in tvNames ==> f in tv.fields
    ensures CommonColumns(tv, tvNames, opNames) == [] <==> tvNames * opNames == {}
  {
    CommonColumnsExactly(tv, tvNames, opNames);
    var columns := CommonColumns(tv, tvNames, opNames);
    if columns != [] {
      assert columns[0] in tvNames * opNames;
    }
    if tvNames * opNames != {} {
      var f :| f in tvNames * opNames;
      assert f in columns;
    }
  }

  lemma CanonicalLength(r: Reader, t: Table)
    ensures multiset(Canonical(r, t)) == multiset(t.rows) && |Canonical(r, t)| == |t.rows|
  {
    assert |multiset(Canonical(r, t))| == |multiset(t.rows)|;
  }

  function AgreeIn(columns: seq<string>, equal: CellTest): (Row, Row) -> bool {
    (a: Row, b: Row) => RowsAgree(columns, a, b, equal)
  }

  /** Tied rows agree with each other, and with themselves, in the compared columns. */
  ghost predicate TiesAgree(r: Reader, t: Table, exclude: set<string>) {
    forall a, b, f :: a in t.rows && b in t.rows && Tied(r, a, b) && f in t.fields && f !in exclude ==> CellsAgree(r, false, a, b, f)
  }

  /** Rows that their keys identify agree with themselves. */
  lemma IdentifiedTiesAgree(r: Reader, t: Table, exclude: set<string>)
    requires CloseToItself(r) && KeysIdentify(r, t.rows)
    ensures TiesAgree(r, t, exclude)
  {
    forall a, f | a in t.rows && f in t.fields
      ensures CellsAgree(r, false, a, a, f)
    {
      CellsEqualReflexive(r, BLANK_BY_ORDER, r.lower, Cell(a, f));
      CellTestsExactly(r, a, a, f);
    }
  }

  lemma TiesAgreeExactly(r: Reader, t: Table, exclude: set<string>)
    ensures var names := ValueFields(t, exclude);
            TiesAgree(r, t, exclude) <==> Ties.TiesAgree(t.rows, Keyed(r), AgreeIn(CommonColumns(t, names, names), ByOrderTest(r)))
  {
    var names := ValueFields(t, exclude);
    var columns := CommonColumns(t, names, names);
    CommonColumnsExactly(t, names, names);
    forall a, b
      ensures Keyed(r)(a) == Keyed(r)(b) <==> Tied(r, a, b)
      ensures AgreeIn(columns, ByOrderTest(r))(a, b) <==> forall f :: f in columns ==> CellsAgree(r, false, a, b, f)
    {
      SameKeyExactly(r, a, b);
      RowsAgreeExactly(r, false, columns, a, b);
    }
  }

  /** A trade file matches all its reorderings exactly when it has a row, a compared column, and ties
      that agree in the compared columns, whatever the excluded ones hold. */
  lemma ReorderedFileMatches(r: Reader, t: Table, exclude: set<string>)
    requires "entry_time_ms" in t.fields && "exit_time_ms" in t.fields && "direction" in t.fields && "qty" in t.fields
    ensures (forall q :: multiset(q) == multiset(t.rows) ==> TradesMatch(r, t, Table(t.fields, q), exclude))
            <==> t.rows != [] && (exists f :: f in t.fields && f !in exclude) && TiesAgree(r, t, exclude)
  {
    var names := ValueFields(t, exclude);
    var agree := AgreeIn(CommonColumns(t, names, names), ByOrderTest(r));
    FourColumns(t);
    ValueFieldsExactly(t, t, exclude);
    TiesAgreeExactly(r, t, exclude);
    KeyOrderIsLinear();
    Ties.AgreesWhenReorderedExactly(t.rows, Keyed(r), KeyLe, agree);
    forall q
      ensures TradesMatch(r, t, Table(t.fields, q), exclude) <==>
              names != {} && t.rows != [] && Ties.ListsAgree(SortBy(t.rows, ByKey(r)), SortBy(q, ByKey(r)), agree)
    {
      ReorderedMatch(r, t, q, exclude);
    }
  }

  lemma ReorderedMatch(r: Reader, t: Table, q: seq<Row>, exclude: set<string>)
    requires TRADE_COLUMNS <= (set f | f in t.fields)
    ensures var names := ValueFields(t, exclude);
            TradesMatch(r, t, Table(t.fields, q), exclude) <==>
            && names != {} && t.rows != []
            && Ties.ListsAgree(SortBy(t.rows, ByKey(r)), SortBy(q, ByKey(r)), AgreeIn(CommonColumns(t, names, names), ByOrderTest(r)))
  {
    assert ValueFields(Table(t.fields, q), exclude) == ValueFields(t, exclude);
  }

  // ----- comparing by time

  predicate InWindow(t: int, w: Window) {
    (w.start.None? || w.start.value <= t) && (w.end.None? || t < w.end.value)
  }

  datatype Stamp = Invalid | Outside | At(time: int)

  function StampOf(r: Reader, column: string, w: Window): Row -> Stamp {
    (row: Row) =>
      var t := r.time(Cell(row, column));
      if t.None? then Invalid else if InWindow(t.value, w) then At(t.value) else Outside
  }

  datatype Index = Index(rows: map<int, Row>, blanks: set<int>, duplicates: set<int>, invalid: nat)

  predicate Kept(stamp: Row -> Stamp, drop: Row -> bool, row: Row, t: int) {
    stamp(row) == At(t) && !drop(row)
  }

  /** What the index of the first `n` rows must hold: the last kept row of each time, the times of
      dropped rows, the times seen twice, and the number of rows without a time. */
  ghost predicate Indexes(rows: seq<Row>, n: nat, stamp: Row -> Stamp, drop: Row -> bool, x: Index)
    requires n <= |rows|
  {
    && x.invalid == |InvalidBefore(rows, n, stamp)|
    && AreDuplicates(rows, n, stamp, x.duplicates)
    && AreBlanks(rows, n, stamp, drop, x.blanks)
    && AreRows(rows, n, stamp, drop, x.rows)
  }

  ghost predicate AreSeen(rows: seq<Row>, n: nat, stamp: Row -> Stamp, times: set<int>)
    requires n <= |rows|
  {
    forall t :: t in times <==> Seen(rows, n, stamp, t)
  }

  ghost predicate AreDuplicates(rows: seq<Row>, n: nat, stamp: Row -> Stamp, times: set<int>)
    requires n <= |rows|
  {
    forall t :: t in times <==> SeenTwice(rows, n, stamp, t)
  }

  ghost predicate AreBlanks(rows: seq<Row>, n: nat, stamp: Row -> Stamp, drop: Row -> bool, times: set<int>)
    requires n <= |rows|
  {
    forall t :: t in times <==> Dropped(rows, n, stamp, drop, t)
  }

  ghost predicate AreRows(rows: seq<Row>, n: nat, stamp: Row -> Stamp, drop: Row -> bool, index: map<int, Row>)
    requires n <= |rows|
  {
    && (forall t :: t in index <==> KeptBefore(rows, n, stamp, drop, t))
    && (forall t :: t in index ==> LastKept(rows, n, stamp, drop, t, index[t]))
  }

  ghost function InvalidBefore(rows: seq<Row>, n: nat, stamp: Row -> Stamp): set<int>
    requires n <= |rows|
  {
    set i | 0 <= i < n && stamp(rows[i]).Invalid?
  }

  ghost predicate Seen(rows: seq<Row>, n: nat, stamp: Row -> Stamp, t: int)
    requires n <= |rows|
  {
    exists i :: 0 <= i < n && stamp(rows[i]) == At(t)
  }

  ghost predicate SeenTwice(rows: seq<Row>, n: nat, stamp: Row -> Stamp, t: int)
    requires n <= |rows|
  {
    exists i, j :: 0 <= i < j < n && stamp(rows[i]) == At(t) && stamp(rows[j]) == At(t)
  }

  ghost predicate Dropped(rows: seq<Row>, n: nat, stamp: Row -> Stamp, drop: Row -> bool, t: int)
    requires n <= |rows|
  {
    exists i :: 0 <= i < n && stamp(rows[i]) == At(t) && drop(rows[i])
  }

  ghost predicate KeptBefore(rows: seq<Row>, n: nat, stamp: Row -> Stamp, drop: Row -> bool, t: int)
    requires n <= |rows|
  {
    exists i :: 0 <= i < n && Kept(stamp, drop, rows[i], t)
  }

  ghost predicate LastKept(rows: seq<Row>, n: nat, stamp: Row -> Stamp, drop: Row -> bool, t: int, row: Row)
    requires n <= |rows|
  {
    exists i :: 0 <= i < n && rows[i] == row && Kept(stamp, drop, rows[i], t)
                && forall j :: i < j < n ==> !Kept(stamp, drop, rows[j], t)
  }

  lemma SeenStep(rows: seq<Row>, n: nat, stamp: Row -> Stamp, t: int)
    requires n < |rows|
    ensures Seen(rows, n + 1, stamp, t) <==> Seen(rows, n, stamp, t) || stamp(rows[n]) == At(t)
    ensures SeenTwice(rows, n + 1, stamp, t) <==>
            SeenTwice(rows, n, stamp, t) || (stamp(rows[n]) == At(t) && Seen(rows, n, stamp, t))
  {
  }

  lemma KeptStep(rows: seq<Row>, n: nat, stamp: Row -> Stamp, drop: Row -> bool, t: int)
    requires n < |rows|
    ensures Dropped(rows, n + 1, stamp, drop, t) <==>
            Dropped(rows, n, stamp, drop, t) || (stamp(rows[n]) == At(t) && drop(rows[n]))
    ensures KeptBefore(rows, n + 1, stamp, drop, t) <==>
            KeptBefore(rows, n, stamp, drop, t) || Kept(stamp, drop, rows[n], t)
  {
  }

  lemma InvalidStep(rows: seq<Row>, n: nat, stamp: Row -> Stamp)
    requires n < |rows|
    ensures |InvalidBefore(rows, n + 1, stamp)| ==
            |InvalidBefore(rows, n, stamp)| + if stamp(rows[n]).Invalid? then 1 else 0
  {
    var before := InvalidBefore(rows, n, stamp);
    if stamp(rows[n]).Invalid? {
      assert InvalidBefore(rows, n + 1, stamp) == before + {n};
    } else {
      assert InvalidBefore(rows, n + 1, stamp) == before;
    }
  }

  lemma DuplicatesStep(rows: seq<Row>, n: nat, stamp: Row -> Stamp, seen: set<int>, times: set<int>)
    requires n < |rows| && AreSeen(rows, n, stamp, seen) && AreDuplicates(rows, n, stamp, times)
    ensures match stamp(rows[n])
            case At(t) =>
              && AreSeen(rows, n + 1, stamp, seen + {t})
              && AreDuplicates(rows, n + 1, stamp, if t in seen then times + {t} else times)
            case _ => AreSeen(rows, n + 1, stamp, seen) && AreDuplicates(rows, n + 1, stamp, times)
  {
  }

  lemma BlanksStep(rows: seq<Row>, n: nat, stamp: Row -> Stamp, drop: Row -> bool, times: set<int>)
    requires n < |rows| && AreBlanks(rows, n, stamp, drop, times)
    ensures match stamp(rows[n])
            case At(t) => AreBlanks(rows, n + 1, stamp, drop, if drop(rows[n]) then times + {t} else times)
            case _ => AreBlanks(rows, n + 1, stamp, drop, times)
  {
  }

  lemma RowsStep(rows: seq<Row>, n: nat, stamp: Row -> Stamp, drop: Row -> bool, index: map<int, Row>)
    requires n < |rows| && AreRows(rows, n, stamp, drop, index)
    ensures match stamp(rows[n])
            case At(t) => AreRows(rows, n + 1, stamp, drop, if drop(rows[n]) then index else index[t := rows[n]])
            case _ => AreRows(rows, n + 1, stamp, drop, index)
  {
  }

  /** `rows_by_time` */
  method RowsByTime(rows: seq<Row>, stamp: Row -> Stamp, drop: Row -> bool) returns (x: Index)
    ensures Indexes(rows, |rows|, stamp, drop, x)
  {
    var index: map<int, Row> := map[];
    var seen, blanks, duplicates, invalid := {}, {}, {}, 0;
    for i := 0 to |rows|
      invariant invalid == |InvalidBefore(rows, i, stamp)|
      invariant AreSeen(rows, i, stamp, seen) && AreDuplicates(rows, i, stamp, duplicates)
      invariant AreBlanks(rows, i, stamp, drop, blanks)
      invariant AreRows(rows, i, stamp, drop, index)
    {
      InvalidStep(rows, i, stamp);
      DuplicatesStep(rows, i, stamp, seen, duplicates);
      BlanksStep(rows, i, stamp, drop, blanks);
      RowsStep(rows, i, stamp, drop, index);
      match stamp(rows[i]) {
        case Invalid => invalid := invalid + 1;
        case Outside =>
        case At(t) =>
          if t in seen {
            duplicates := duplicates + {t};
          }
          seen := seen + {t};
          if drop(rows[i]) {
            blanks := blanks + {t};
          } else {
            index := index[t := rows[i]];
          }
      }
    }
    x := Index(index, blanks, duplicates, invalid);
  }

  /** `latest_time` */
  function LatestTime(rows: seq<Row>, n: nat, stamp: Row -> Stamp): Option<int>
    requires n <= |rows|
  {
    if n == 0 then None
    else
      var earlier := LatestTime(rows, n - 1, stamp);
      match stamp(rows[n - 1])
      case At(t) => if earlier.Some? && t <= earlier.value then earlier else Some(t)
      case _ => earlier
  }

  ghost predicate IsLatest(rows: seq<Row>, n: nat, stamp: Row -> Stamp, t: int)
    requires n <= |rows|
  {
    Seen(rows, n, stamp, t) && forall u :: Seen(rows, n, stamp, u) ==> u <= t
  }

  lemma {:induction false} LatestTimeIsGreatest(rows: seq<Row>, n: nat, stamp: Row -> Stamp, t: int)
    requires n <= |rows|
    ensures LatestTime(rows, n, stamp) == Some(t) <==> IsLatest(rows, n, stamp, t)
    ensures LatestTime(rows, n, stamp).None? ==> !Seen(rows, n, stamp, t)
  {
    if n > 0 {
      forall u
        ensures Seen(rows, n, stamp, u) <==> Seen(rows, n - 1, stamp, u) || stamp(rows[n - 1]) == At(u)
        ensures LatestTime(rows, n - 1, stamp) == Some(u) <==> IsLatest(rows, n - 1, stamp, u)
        ensures LatestTime(rows, n - 1, stamp).None? ==> !Seen(rows, n - 1, stamp, u)
      {
        SeenStep(rows, n - 1, stamp, u);
        LatestTimeIsGreatest(rows, n - 1, stamp, u);
      }
    }
  }

  // ----- agreement by time

  /** One side's rows, the way their times are read, and which rows are dropped. */
  datatype Side = Side(rows: seq<Row>, stamp: Row -> Stamp, drop: Row -> bool)

  ghost predicate HasTime(s: Side, t: int) {
    KeptBefore(s.rows, |s.rows|, s.stamp, s.drop, t)
  }

  ghost predicate HasDropped(s: Side, t: int) {
    Dropped(s.rows, |s.rows|, s.stamp, s.drop, t)
  }

  /** Every row has a readable time. */
  ghost predicate AllValid(s: Side) {
    forall i :: 0 <= i < |s.rows| ==> !s.stamp(s.rows[i]).Invalid?
  }

  /** No time in the window occurs twice. */
  ghost predicate NoneTwice(s: Side) {
    forall i, j :: 0 <= i < j < |s.rows| && s.stamp(s.rows[i]).At? ==> s.stamp(s.rows[i]) != s.stamp(s.rows[j])
  }

  ghost predicate WellTimed(s: Side) {
    AllValid(s) && NoneTwice(s)
  }

  /** The times the comparison requires on both sides. */
  ghost predicate TvTime(tv: Side, latest: Option<int>, t: int) {
    HasTime(tv, t) && latest != Some(t)
  }

  ghost predicate OpTime(tv: Side, op: Side, latest: Option<int>, t: int) {
    HasTime(op, t) && !HasDropped(tv, t) && latest != Some(t)
  }

  ghost predicate SameTimes(tv: Side, op: Side, latest: Option<int>) {
    forall t :: TvTime(tv, latest, t) <==> OpTime(tv, op, latest, t)
  }

  /** Rows of a time that both sides require agree in every column. */
  ghost predicate TimedRowsAgree(columns: seq<string>, tv: Side, op: Side, latest: Option<int>, equal: CellTest) {
    forall a, b, t :: ComparedPair(tv, op, latest, a, b, t) ==> RowsAgree(columns, a, b, equal)
  }

  /** Rows of one time that the comparison by time compares. */
  ghost predicate ComparedPair(tv: Side, op: Side, latest: Option<int>, a: Row, b: Row, t: int) {
    && a in tv.rows && b in op.rows && Kept(tv.stamp, tv.drop, a, t) && Kept(op.stamp, op.drop, b, t)
    && latest != Some(t) && !HasDropped(tv, t)
  }

  ghost predicate IndexOf(s: Side, x: Index) {
    Indexes(s.rows, |s.rows|, s.stamp, s.drop, x)
  }

  lemma WellTimedExactly(s: Side, x: Index)
    requires IndexOf(s, x)
    ensures AllValid(s) <==> x.invalid == 0
    ensures NoneTwice(s) <==> x.duplicates == {}
  {
    var invalid := InvalidBefore(s.rows, |s.rows|, s.stamp);
    if AllValid(s) {
      assert invalid == {};
    }
    if x.invalid == 0 {
      forall i | 0 <= i < |s.rows|
        ensures !s.stamp(s.rows[i]).Invalid?
      {
        assert i !in invalid;
      }
    }
    if NoneTwice(s) {
      assert forall t :: !SeenTwice(s.rows, |s.rows|, s.stamp, t);
      assert (forall t :: t !in x.duplicates) ==> x.duplicates == {};
    }
    if x.duplicates == {} {
      forall i, j | 0 <= i < j < |s.rows| && s.stamp(s.rows[i]).At?
        ensures s.stamp(s.rows[i]) != s.stamp(s.rows[j])
      {
        assert !SeenTwice(s.rows, |s.rows|, s.stamp, s.stamp(s.rows[i]).time);
      }
    }
  }

  /** In a well timed side the index holds the only kept row of a time. */
  lemma IndexedRow(s: Side, x: Index, row: Row, t: int)
    requires IndexOf(s, x) && WellTimed(s)
    ensures t in x.rows && x.rows[t] == row <==> row in s.rows && Kept(s.stamp, s.drop, row, t)
  {
  }

  function RowsAt(index: map<int, Row>, times: seq<int>): (r: seq<Row>)
    requires forall i :: 0 <= i < |times| ==> times[i] in index
    ensures |r| == |times| && forall i :: 0 <= i < |times| ==> r[i] == index[times[i]]
  {
    seq(|times|, i requires 0 <= i < |times| => index[times[i]])
  }

  predicate IsCompared(x: Index, y: Index, latest: Option<int>, t: int) {
    t in x.rows && t in y.rows && t !in x.blanks && latest != Some(t)
  }

  ghost predicate AreCompared(x: Index, y: Index, latest: Option<int>, times: seq<int>) {
    && (forall i :: 0 <= i < |times| ==> times[i] in x.rows && times[i] in y.rows && times[i] !in x.blanks && latest != Some(times[i]))
    && (forall t :: IsCompared(x, y, latest, t) ==> t in times)
  }

  /** Comparing the indexed rows over the common times is comparing all timed rows. */
  lemma IndexedAgreeExactly(columns: seq<string>, tv: Side, op: Side, x: Index, y: Index, latest: Option<int>,
                            times: seq<int>, equal: CellTest)
    requires IndexOf(tv, x) && IndexOf(op, y) && WellTimed(tv) && WellTimed(op) && AreCompared(x, y, latest, times)
    ensures TimedRowsAgree(columns, tv, op, latest, equal) <==>
            ListsAgree(columns, RowsAt(x.rows, times), RowsAt(y.rows, times), equal)
  {
    var xs, ys := RowsAt(x.rows, times), RowsAt(y.rows, times);
    if TimedRowsAgree(columns, tv, op, latest, equal) {
      forall i | 0 <= i < |times|
        ensures RowsAgree(columns, xs[i], ys[i], equal)
      {
        IndexedRow(tv, x, xs[i], times[i]);
        IndexedRow(op, y, ys[i], times[i]);
        assert ComparedPair(tv, op, latest, xs[i], ys[i], times[i]);
      }
    }
    if ListsAgree(columns, xs, ys, equal) {
      forall a, b, t | ComparedPair(tv, op, latest, a, b, t)
        ensures RowsAgree(columns, a, b, equal)
      {
        IndexedRow(tv, x, a, t);
        IndexedRow(op, y, b, t);
        assert IsCompared(x, y, latest, t);
        var i :| 0 <= i < |times| && times[i] == t;
        assert RowsAgree(columns, xs[i], ys[i], equal);
      }
    }
  }

  function Only(t: Option<int>): set<int> {
    if t.Some? then {t.value} else {}
  }

  lemma SameTimesExactly(tv: Side, op: Side, x: Index, y: Index, latest: Option<int>)
    requires IndexOf(tv, x) && IndexOf(op, y)
    ensures SameTimes(tv, op, latest) <==> TvTimes(x, latest) == OpTimes(x, y, latest)
    ensures (exists t :: TvTime(tv, latest, t)) <==> TvTimes(x, latest) != {}
  {
    var tvTimes, opTimes := TvTimes(x, latest), OpTimes(x, y, latest);
    assert forall t :: t in tvTimes <==> TvTime(tv, latest, t);
    assert forall t :: t in opTimes <==> OpTime(tv, op, latest, t);
    assert (forall t :: t !in tvTimes) ==> tvTimes == {};
    if SameTimes(tv, op, latest) {
      assert forall t :: t in tvTimes <==> t in opTimes;
    } else {
      var t :| TvTime(tv, latest, t) != OpTime(tv, op, latest, t);
      assert t in tvTimes <==> t !in opTimes;
    }
  }

  /** What a match by time means: readable distinct times, the same required times with at least one of
      them, and agreement of the rows at each. */
  ghost predicate SidesAgree(columns: seq<string>, tv: Side, op: Side, latest: Option<int>, equal: CellTest) {
    && WellTimed(tv) && WellTimed(op)
    && SameTimes(tv, op, latest) && (exists t :: TvTime(tv, latest, t))
    && TimedRowsAgree(columns, tv, op, latest, equal)
  }

  function TvTimes(x: Index, latest: Option<int>): set<int> {
    x.rows.Keys - Only(latest)
  }

  function OpTimes(x: Index, y: Index, latest: Option<int>): set<int> {
    y.rows.Keys - x.blanks - Only(latest)
  }

  /** The sorted common times of two indexes. */
  function CommonTimes(x: Index, y: Index, latest: Option<int>): (times: seq<int>)
    ensures AreCompared(x, y, latest, times)
  {
    SortedKeysAreCompared(x, y, latest, SortedKeys(TvTimes(x, latest) * OpTimes(x, y, latest)));
    SortedKeys(TvTimes(x, latest) * OpTimes(x, y, latest))
  }

  predicate Clean(x: Index) {
    x.duplicates == {} && x.invalid == 0
  }

  ghost predicate IndexesAgree(columns: seq<string>, x: Index, y: Index, latest: Option<int>, equal: CellTest) {
    && Clean(x) && Clean(y) && TvTimes(x, latest) == OpTimes(x, y, latest) && CommonTimes(x, y, latest) != []
    && CommonRowsAgree(columns, x, y, latest, equal)
  }

  lemma SidesAgreeExactly(columns: seq<string>, tv: Side, op: Side, x: Index, y: Index, latest: Option<int>, equal: CellTest)
    requires IndexOf(tv, x) && IndexOf(op, y)
    ensures SidesAgree(columns, tv, op, latest, equal) <==> IndexesAgree(columns, x, y, latest, equal)
  {
    WellTimedExactly(tv, x);
    WellTimedExactly(op, y);
    if WellTimed(tv) && WellTimed(op) {
      SameTimesExactly(tv, op, x, y, latest);
      IndexedAgreeExactly(columns, tv, op, x, y, latest, CommonTimes(x, y, latest), equal);
      if SameTimes(tv, op, latest) {
        SomeCompared(x, y, latest, CommonTimes(x, y, latest));
      }
    }
  }

  lemma SomeCompared(x: Index, y: Index, latest: Option<int>, times: seq<int>)
    requires AreCompared(x, y, latest, times)
    requires TvTimes(x, latest) == OpTimes(x, y, latest)
    ensures times == [] <==> TvTimes(x, latest) == {}
  {
    var tvTimes := TvTimes(x, latest);
    if times != [] {
      assert times[0] in tvTimes;
    }
    assert (forall t :: t !in tvTimes) ==> tvTimes == {};
    if tvTimes != {} {
      var t :| t in tvTimes;
      assert t in OpTimes(x, y, latest);
      assert IsCompared(x, y, latest, t);
    }
  }

  lemma SortedKeysAreCompared(x: Index, y: Index, latest: Option<int>, times: seq<int>)
    requires times == SortedKeys(TvTimes(x, latest) * OpTimes(x, y, latest))
    ensures AreCompared(x, y, latest, times)
  {
    var common := TvTimes(x, latest) * OpTimes(x, y, latest);
    forall i | 0 <= i < |times|
      ensures IsCompared(x, y, latest, times[i])
    {
      assert times[i] in times;
      assert times[i] in common;
    }
    forall t | IsCompared(x, y, latest, t)
      ensures t in times
    {
      assert t in common;
    }
  }

  /** The comparison of two sides by time. A shared latest time and the times of dropped rows are taken
      out before the common times are compared. */
  method CompareSides(columns: seq<string>, columnsAgree: bool, tv: Side, op: Side, latest: Option<int>, equal: CellTest)
    returns (s: Summary, ghost x: Index, ghost y: Index)
    ensures s.columns == |columns|
    ensures IndexOf(tv, x) && IndexOf(op, y) && CountsCells(s, columns, x, y, latest, equal)
    ensures s.matched <==> s.classification == []
    ensures s.matched <==> columnsAgree && columns != [] && SidesAgree(columns, tv, op, latest, equal)
    ensures TimedTags(s, columnsAgree, SameTimes(tv, op, latest), NoneTwice(tv) && NoneTwice(op), AllValid(tv) && AllValid(op))
    ensures columns == [] ==> s.total == 0
  {
    var tvIndex := RowsByTime(tv.rows, tv.stamp, tv.drop);
    var opIndex := RowsByTime(op.rows, op.stamp, op.drop);
    SidesAgreeExactly(columns, tv, op, tvIndex, opIndex, latest, equal);
    WellTimedExactly(tv, tvIndex);
    WellTimedExactly(op, opIndex);
    SameTimesExactly(tv, op, tvIndex, opIndex, latest);
    s := CompareIndexes(columns, columnsAgree, tvIndex, opIndex, latest, equal);
    x, y := tvIndex, opIndex;
  }

  /** What each tag of the classification means. */
  ghost predicate TimedTags(s: Summary, sameColumns: bool, sameTimes: bool, distinct: bool, readable: bool) {
    && (NoCommonColumns in s.classification <==> s.columns == 0)
    && (ColumnSetMismatch in s.classification <==> !sameColumns)
    && (TimeWindowMismatch in s.classification <==> !sameTimes)
    && (DuplicateTimestamps in s.classification <==> !distinct)
    && (InvalidTimestamps in s.classification <==> !readable)
    && (NoComparableCells in s.classification <==> s.total == 0)
    && (ValueMismatch in s.classification <==> s.mismatches != 0)
    && RowCountMismatch !in s.classification
  }

  ghost predicate CommonRowsAgree(columns: seq<string>, x: Index, y: Index, latest: Option<int>, equal: CellTest) {
    var times := CommonTimes(x, y, latest);
    ListsAgree(columns, RowsAt(x.rows, times), RowsAt(y.rows, times), equal)
  }

  /** Positions, by column and common time, of the cells that differ. */
  ghost function UnequalAtTimes(columns: seq<string>, x: Index, y: Index, latest: Option<int>, equal: CellTest): set<(int, int)> {
    var times := CommonTimes(x, y, latest);
    Unequal(|columns|, |times|, CellAt(columns, RowsAt(x.rows, times), RowsAt(y.rows, times), equal))
  }

  /** One cell per column and common time, and every one that differs counted. */
  ghost predicate CountsCells(s: Summary, columns: seq<string>, x: Index, y: Index, latest: Option<int>, equal: CellTest) {
    && s.total == |columns| * |CommonTimes(x, y, latest)|
    && s.mismatches == |UnequalAtTimes(columns, x, y, latest, equal)|
  }

  method CompareCommonTimes(columns: seq<string>, x: Index, y: Index, latest: Option<int>, equal: CellTest)
    returns (total: nat, mismatches: nat)
    ensures total == |columns| * |CommonTimes(x, y, latest)|
    ensures mismatches == |UnequalAtTimes(columns, x, y, latest, equal)|
    ensures total == 0 <==> columns == [] || CommonTimes(x, y, latest) == []
    ensures mismatches == 0 <==> CommonRowsAgree(columns, x, y, latest, equal)
  {
    var times := CommonTimes(x, y, latest);
    total, mismatches := CompareCells(columns, RowsAt(x.rows, times), RowsAt(y.rows, times), equal);
  }

  method CompareIndexes(columns: seq<string>, columnsAgree: bool, x: Index, y: Index, latest: Option<int>, equal: CellTest)
    returns (s: Summary)
    ensures s.columns == |columns| && CountsCells(s, columns, x, y, latest, equal)
    ensures s.matched <==> s.classification == []
    ensures s.matched <==> columnsAgree && columns != [] && IndexesAgree(columns, x, y, latest, equal)
    ensures TimedTags(s, columnsAgree, TvTimes(x, latest) == OpTimes(x, y, latest), x.duplicates == {} && y.duplicates == {},
                      x.invalid == 0 && y.invalid == 0)
    ensures columns == [] ==> s.total == 0
  {
    var tvTimes, opTimes := TvTimes(x, latest), OpTimes(x, y, latest);
    SameSets(tvTimes, opTimes);
    var total, mismatches := CompareCommonTimes(columns, x, y, latest, equal);
    var tags := Classify(columns == [], !columnsAgree, tvTimes - opTimes != {} || opTimes - tvTimes != {},
                         x.duplicates != {} || y.duplicates != {}, x.invalid != 0 || y.invalid != 0, false,
                         total == 0, mismatches != 0);
    s := Summary(total != 0 && mismatches == 0 && tvTimes - opTimes == {} && opTimes - tvTimes == {} && columnsAgree
                 && x.duplicates == {} && y.duplicates == {} && x.invalid == 0 && y.invalid == 0, tags,
                 |columns|, total, mismatches);
  }

  // ----- the two time-keyed comparisons

  /** `not has_comparable_values(row)` for the rows that are dropped when blank. */
  function BlankRow(r: Reader, columns: seq<string>, dropBlank: bool): Row -> bool {
    (row: Row) => dropBlank && forall c :: c in columns ==> Blank(r, BLANK_BY_TIME, Cell(row, c))
  }

  function Never(): Row -> bool {
    (row: Row) => false
  }

  function TvNames(tv: Table, o: Options): set<string> {
    ValueFields(tv, o.exclude) - {o.tvTime}
  }

  function OpNames(op: Table, o: Options): set<string> {
    ValueFields(op, o.exclude) - {o.opTime}
  }

  function TimedColumns(tv: Table, op: Table, o: Options): seq<string> {
    CommonColumns(tv, TvNames(tv, o), OpNames(op, o))
  }

  function TvSide(r: Reader, tv: Table, op: Table, o: Options): Side {
    Side(tv.rows, StampOf(r, o.tvTime, o.window), BlankRow(r, TimedColumns(tv, op, o), o.dropBlank))
  }

  function OpSide(r: Reader, op: Table, o: Options): Side {
    Side(op.rows, StampOf(r, o.opTime, o.window), Never())
  }

  /** The time both sides end at, when bars that may still be open must be left out. */
  function SharedLatest(tv: Side, op: Side, o: Options): Option<int> {
    var tvLatest := LatestTime(tv.rows, |tv.rows|, tv.stamp);
    if o.closedOnly && o.window.end.None? && tvLatest == LatestTime(op.rows, |op.rows|, op.stamp) then tvLatest else None
  }

  // ----- the sides are what the tables say

  lemma TimedColumnsExactly(tv: Table, op: Table, o: Options)
    ensures TimedColumnsAre(tv, op, o, TimedColumns(tv, op, o))
    ensures forall f :: f in TvNames(tv, o) <==> TvColumn(tv, o, f)
    ensures forall f :: f in OpNames(op, o) <==> OpColumn(op, o, f)
  {
    CommonColumnsExactly(tv, TvNames(tv, o), OpNames(op, o));
  }

  lemma StampExactly(r: Reader, row: Row, column: string, w: Window)
    ensures forall t :: StampOf(r, column, w)(row) == At(t) <==> Stamped(r, row, column, w, t)
    ensures StampOf(r, column, w)(row).Invalid? <==> r.time(Held(row, column)).None?
  {
    assert Cell(row, column) == Held(row, column);
  }

  lemma BlankRowExactly(r: Reader, tv: Table, op: Table, o: Options, row: Row)
    ensures TvSide(r, tv, op, o).drop(row) <==> Valueless(r, tv, op, o, row)
  {
    TimedColumnsExactly(tv, op, o);
    forall f | f in TimedColumns(tv, op, o)
      ensures Blank(r, BLANK_BY_TIME, Cell(row, f)) <==> HoldsNothing(r, true, row, f)
    {
      BlankExactly(r, row, f);
    }
  }

  lemma TvKeptExactly(r: Reader, tv: Table, op: Table, o: Options, row: Row, t: int)
    ensures var s := TvSide(r, tv, op, o);
            row in tv.rows && Kept(s.stamp, s.drop, row, t) <==> TvRow(r, tv, op, o, row, t)
  {
    StampExactly(r, row, o.tvTime, o.window);
    BlankRowExactly(r, tv, op, o, row);
  }

  lemma OpKeptExactly(r: Reader, op: Table, o: Options, row: Row, t: int)
    ensures var s := OpSide(r, op, o);
            row in op.rows && Kept(s.stamp, s.drop, row, t) <==> OpRow(r, op, o, row, t)
  {
    StampExactly(r, row, o.opTime, o.window);
  }

  /** Some row in a list meets a condition at some index. */
  lemma HasTimeExactly(s: Side, t: int)
    ensures HasTime(s, t) <==> exists row :: row in s.rows && Kept(s.stamp, s.drop, row, t)
  {
    if row :| row in s.rows && Kept(s.stamp, s.drop, row, t) {
      var i :| 0 <= i < |s.rows| && s.rows[i] == row;
      assert Kept(s.stamp, s.drop, s.rows[i], t);
    }
    if i :| 0 <= i < |s.rows| && Kept(s.stamp, s.drop, s.rows[i], t) {
      assert s.rows[i] in s.rows;
    }
  }

  lemma TvHasTime(r: Reader, tv: Table, op: Table, o: Options, t: int)
    ensures HasTime(TvSide(r, tv, op, o), t) <==> exists row :: TvRow(r, tv, op, o, row, t)
  {
    var s := TvSide(r, tv, op, o);
    HasTimeExactly(s, t);
    forall row
      ensures row in s.rows && Kept(s.stamp, s.drop, row, t) <==> TvRow(r, tv, op, o, row, t)
    {
      TvKeptExactly(r, tv, op, o, row, t);
    }
  }

  lemma OpHasTime(r: Reader, op: Table, o: Options, t: int)
    ensures HasTime(OpSide(r, op, o), t) <==> exists row :: OpRow(r, op, o, row, t)
  {
    var s := OpSide(r, op, o);
    HasTimeExactly(s, t);
    forall row
      ensures row in s.rows && Kept(s.stamp, s.drop, row, t) <==> OpRow(r, op, o, row, t)
    {
      OpKeptExactly(r, op, o, row, t);
    }
  }

  lemma DroppedExactly(r: Reader, tv: Table, op: Table, o: Options, t: int)
    ensures HasDropped(TvSide(r, tv, op, o), t) <==> TakenOut(r, tv, op, o, t)
  {
    var s := TvSide(r, tv, op, o);
    forall row
      ensures s.stamp(row) == At(t) && s.drop(row) <==> Stamped(r, row, o.tvTime, o.window, t) && Valueless(r, tv, op, o, row)
    {
      StampExactly(r, row, o.tvTime, o.window);
      BlankRowExactly(r, tv, op, o, row);
    }
    if i :| 0 <= i < |s.rows| && s.stamp(s.rows[i]) == At(t) && s.drop(s.rows[i]) {
      assert s.rows[i] in tv.rows;
    }
  }

  lemma SeenExactly(r: Reader, rows: seq<Row>, column: string, w: Window, t: int)
    ensures Seen(rows, |rows|, StampOf(r, column, w), t) <==> SomeStamped(r, rows, column, w, t)
  {
    forall row
      ensures StampOf(r, column, w)(row) == At(t) <==> Stamped(r, row, column, w, t)
    {
      StampExactly(r, row, column, w);
    }
  }

  lemma LatestExactly(r: Reader, rows: seq<Row>, column: string, w: Window, t: int)
    ensures LatestTime(rows, |rows|, StampOf(r, column, w)) == Some(t) <==> Latest(r, rows, column, w, t)
  {
    LatestTimeIsGreatest(rows, |rows|, StampOf(r, column, w), t);
    forall u
      ensures Seen(rows, |rows|, StampOf(r, column, w), u) <==> SomeStamped(r, rows, column, w, u)
    {
      SeenExactly(r, rows, column, w, u);
    }
  }

  lemma SharedLatestExactly(r: Reader, tv: Table, op: Table, o: Options, t: int)
    ensures SharedLatest(TvSide(r, tv, op, o), OpSide(r, op, o), o) == Some(t) <==> StillOpen(r, tv, op, o, t)
  {
    LatestExactly(r, tv.rows, o.tvTime, o.window, t);
    LatestExactly(r, op.rows, o.opTime, o.window, t);
  }

  lemma WellTimedMeans(r: Reader, s: Side, column: string, w: Window)
    requires s.stamp == StampOf(r, column, w)
    ensures TimesReadable(r, s.rows, column) <==> AllValid(s)
    ensures TimesDistinct(r, s.rows, column, w) <==> NoneTwice(s)
  {
    AllValidExactly(r, s, column, w);
    NoneTwiceExactly(r, s, column, w);
  }

  lemma AllValidExactly(r: Reader, s: Side, column: string, w: Window)
    requires s.stamp == StampOf(r, column, w)
    ensures TimesReadable(r, s.rows, column) <==> AllValid(s)
  {
    forall row
      ensures s.stamp(row).Invalid? <==> r.time(Held(row, column)).None?
    {
      StampExactly(r, row, column, w);
    }
  }

  lemma NoneTwiceExactly(r: Reader, s: Side, column: string, w: Window)
    requires s.stamp == StampOf(r, column, w)
    ensures TimesDistinct(r, s.rows, column, w) <==> NoneTwice(s)
  {
    forall row
      ensures forall t :: s.stamp(row) == At(t) <==> Stamped(r, row, column, w, t)
    {
      StampExactly(r, row, column, w);
    }
    if TimesDistinct(r, s.rows, column, w) {
      forall i, j | 0 <= i < j < |s.rows| && s.stamp(s.rows[i]).At?
        ensures s.stamp(s.rows[i]) != s.stamp(s.rows[j])
      {
        var t := s.stamp(s.rows[i]).time;
        assert Stamped(r, s.rows[i], column, w, t);
      }
    }
  }

  lemma RequiredTimes(r: Reader, tv: Table, op: Table, o: Options, t: int)
    ensures var a, b := TvSide(r, tv, op, o), OpSide(r, op, o);
            && (TvTime(a, SharedLatest(a, b, o), t) <==> TvHas(r, tv, op, o, t))
            && (OpTime(a, b, SharedLatest(a, b, o), t) <==> OpHas(r, tv, op, o, t))
  {
    TvHasTime(r, tv, op, o, t);
    OpHasTime(r, op, o, t);
    DroppedExactly(r, tv, op, o, t);
    SharedLatestExactly(r, tv, op, o, t);
  }

  lemma SameTimesMeans(r: Reader, tv: Table, op: Table, o: Options)
    ensures var a, b := TvSide(r, tv, op, o), OpSide(r, op, o);
            && (SameTimes(a, b, SharedLatest(a, b, o)) <==> forall t :: TvHas(r, tv, op, o, t) <==> OpHas(r, tv, op, o, t))
            && ((exists t :: TvTime(a, SharedLatest(a, b, o), t)) <==> exists t :: TvHas(r, tv, op, o, t))
  {
    var a, b := TvSide(r, tv, op, o), OpSide(r, op, o);
    forall t
      ensures TvTime(a, SharedLatest(a, b, o), t) <==> TvHas(r, tv, op, o, t)
      ensures OpTime(a, b, SharedLatest(a, b, o), t) <==> OpHas(r, tv, op, o, t)
    {
      RequiredTimes(r, tv, op, o, t);
    }
  }

  lemma ComparedPairExactly(r: Reader, tv: Table, op: Table, o: Options, x: Row, y: Row, t: int)
    ensures var a, b := TvSide(r, tv, op, o), OpSide(r, op, o);
            ComparedPair(a, b, SharedLatest(a, b, o), x, y, t) <==>
            Compared(r, tv, op, o, x, y, t)
  {
    TvKeptExactly(r, tv, op, o, x, t);
    OpKeptExactly(r, op, o, y, t);
    DroppedExactly(r, tv, op, o, t);
    SharedLatestExactly(r, tv, op, o, t);
  }

  lemma TimedRowsMean(r: Reader, tv: Table, op: Table, o: Options)
    ensures var a, b := TvSide(r, tv, op, o), OpSide(r, op, o);
            TimedRowsAgree(TimedColumns(tv, op, o), a, b, SharedLatest(a, b, o), ByTimeTest(r)) <==> TimedCellsAgree(r, tv, op, o)
  {
    var a, b, columns := TvSide(r, tv, op, o), OpSide(r, op, o), TimedColumns(tv, op, o);
    var latest := SharedLatest(a, b, o);
    TimedColumnsExactly(tv, op, o);
    if TimedCellsAgree(r, tv, op, o) {
      forall x, y, t | ComparedPair(a, b, latest, x, y, t)
        ensures RowsAgree(columns, x, y, ByTimeTest(r))
      {
        ComparedPairExactly(r, tv, op, o, x, y, t);
        RowsAgreeExactly(r, true, columns, x, y);
      }
    }
    if TimedRowsAgree(columns, a, b, latest, ByTimeTest(r)) {
      forall x, y, t, f | Compared(r, tv, op, o, x, y, t) && TvColumn(tv, o, f) && OpColumn(op, o, f)
        ensures CellsAgree(r, true, x, y, f)
      {
        ComparedPairExactly(r, tv, op, o, x, y, t);
        RowsAgreeExactly(r, true, columns, x, y);
        assert RowsAgree(columns, x, y, ByTimeTest(r));
      }
    }
  }

  lemma ColumnsMatchExactly(tv: Table, op: Table, o: Options)
    ensures SameColumns(tv, op, o) <==> NamesMatch(tv, op, o)
    ensures ColumnsMatch(tv, op, o) <==> NamesMatch(tv, op, o) && TimedColumns(tv, op, o) != []
  {
    TimedColumnsExactly(tv, op, o);
    var columns := TimedColumns(tv, op, o);
    assert columns != [] ==> columns[0] in columns;
  }

  /** A match by time, in terms of the tables. */
  lemma TimedAgreeExactly(r: Reader, tv: Table, op: Table, o: Options)
    ensures var a, b := TvSide(r, tv, op, o), OpSide(r, op, o);
            TimedAgree(r, tv, op, o) <==>
            ColumnsMatch(tv, op, o) && SidesAgree(TimedColumns(tv, op, o), a, b, SharedLatest(a, b, o), ByTimeTest(r))
  {
    WellTimedMeans(r, TvSide(r, tv, op, o), o.tvTime, o.window);
    WellTimedMeans(r, OpSide(r, op, o), o.opTime, o.window);
    SameTimesMeans(r, tv, op, o);
    TimedRowsMean(r, tv, op, o);
  }

  lemma ComparedTimesAre(tv: Side, op: Side, x: Index, y: Index, latest: Option<int>, times: seq<int>, t: int)
    requires IndexOf(tv, x) && IndexOf(op, y) && AreCompared(x, y, latest, times)
    ensures t in times <==> TvTime(tv, latest, t) && OpTime(tv, op, latest, t)
  {
    assert IsCompared(x, y, latest, t) <==> TvTime(tv, latest, t) && OpTime(tv, op, latest, t);
  }

  lemma LastTvRow(r: Reader, tv: Table, op: Table, o: Options, x: Index, t: int)
    requires IndexOf(TvSide(r, tv, op, o), x) && t in x.rows
    ensures LastAt(tv.rows, TvRowsAt(r, tv, op, o, t), x.rows[t])
  {
    var s := TvSide(r, tv, op, o);
    forall row | row in tv.rows
      ensures Kept(s.stamp, s.drop, row, t) <==> TvRowsAt(r, tv, op, o, t)(row)
    {
      TvKeptExactly(r, tv, op, o, row, t);
    }
    assert LastKept(tv.rows, |tv.rows|, s.stamp, s.drop, t, x.rows[t]);
  }

  lemma LastOpRow(r: Reader, op: Table, o: Options, y: Index, t: int)
    requires IndexOf(OpSide(r, op, o), y) && t in y.rows
    ensures LastAt(op.rows, OpRowsAt(r, op, o, t), y.rows[t])
  {
    var s := OpSide(r, op, o);
    forall row | row in op.rows
      ensures Kept(s.stamp, s.drop, row, t) <==> OpRowsAt(r, op, o, t)(row)
    {
      OpKeptExactly(r, op, o, row, t);
    }
    assert LastKept(op.rows, |op.rows|, s.stamp, s.drop, t, y.rows[t]);
  }

  lemma IndexedRowsAre(r: Reader, tv: Table, op: Table, o: Options, x: Index, y: Index)
    requires IndexOf(TvSide(r, tv, op, o), x) && IndexOf(OpSide(r, op, o), y)
    ensures var times := CommonTimes(x, y, SharedLatest(TvSide(r, tv, op, o), OpSide(r, op, o), o));
            TimedRowsAre(r, tv, op, o, times, RowsAt(x.rows, times), RowsAt(y.rows, times))
  {
    var a, b := TvSide(r, tv, op, o), OpSide(r, op, o);
    var times := CommonTimes(x, y, SharedLatest(a, b, o));
    forall t
      ensures t in times <==> TvHas(r, tv, op, o, t) && OpHas(r, tv, op, o, t)
    {
      ComparedTimesAre(a, b, x, y, SharedLatest(a, b, o), times, t);
      RequiredTimes(r, tv, op, o, t);
    }
    forall i | 0 <= i < |times|
      ensures LastAt(tv.rows, TvRowsAt(r, tv, op, o, times[i]), x.rows[times[i]])
      ensures LastAt(op.rows, OpRowsAt(r, op, o, times[i]), y.rows[times[i]])
    {
      LastTvRow(r, tv, op, o, x, times[i]);
      LastOpRow(r, op, o, y, times[i]);
    }
  }

  ghost predicate NamesMatch(tv: Table, op: Table, o: Options) {
    TvNames(tv, o) <= OpNames(op, o) && (o.exactColumns ==> OpNames(op, o) <= TvNames(tv, o))
  }

  method CompareTimed(r: Reader, tv: Table, op: Table, o: Options) returns (s: Summary, ghost x: Index, ghost y: Index)
    ensures s.columns == |TimedColumns(tv, op, o)|
    ensures IndexOf(TvSide(r, tv, op, o), x) && IndexOf(OpSide(r, op, o), y)
    ensures CountsCells(s, TimedColumns(tv, op, o), x, y, SharedLatest(TvSide(r, tv, op, o), OpSide(r, op, o), o),
                        ByTimeTest(r))
    ensures s.matched <==> s.classification == []
    ensures s.matched <==>
            && NamesMatch(tv, op, o) && TimedColumns(tv, op, o) != []
            && SidesAgree(TimedColumns(tv, op, o), TvSide(r, tv, op, o), OpSide(r, op, o),
                          SharedLatest(TvSide(r, tv, op, o), OpSide(r, op, o), o), ByTimeTest(r))
    ensures TimedTags(s, NamesMatch(tv, op, o),
                      SameTimes(TvSide(r, tv, op, o), OpSide(r, op, o), SharedLatest(TvSide(r, tv, op, o), OpSide(r, op, o), o)),
                      NoneTwice(TvSide(r, tv, op, o)) && NoneTwice(OpSide(r, op, o)),
                      AllValid(TvSide(r, tv, op, o)) && AllValid(OpSide(r, op, o)))
    ensures s.columns == 0 ==> s.total == 0
  {
    var missing, extra := TvNames(tv, o) - OpNames(op, o), OpNames(op, o) - TvNames(tv, o);
    SubsetExactly(TvNames(tv, o), OpNames(op, o));
    SubsetExactly(OpNames(op, o), TvNames(tv, o));
    s, x, y := CompareSides(TimedColumns(tv, op, o), missing == {} && (o.exactColumns ==> extra == {}),
                      TvSide(r, tv, op, o), OpSide(r, op, o),
                      SharedLatest(TvSide(r, tv, op, o), OpSide(r, op, o), o), ByTimeTest(r));
  }

  /** `_compare_rows_by_time`. The counts are over the compared columns and times, and the status is
      "match" exactly when the classification is, which is exactly when the tables agree. */
  method CompareByTime(r: Reader, tv: Table, op: Table, o: Options)
    returns (s: Summary, ghost columns: seq<string>, ghost times: seq<int>, ghost xs: seq<Row>, ghost ys: seq<Row>)
    ensures TimedColumnsAre(tv, op, o, columns) && TimedRowsAre(r, tv, op, o, times, xs, ys)
    ensures s.columns == |columns| && s.total == |columns| * |times|
    ensures s.mismatches == |Differing(r, true, columns, xs, ys)|
    ensures s.matched <==> TimedAgree(r, tv, op, o)
    ensures s.matched <==> s.classification == []
    ensures TimedTags(s, SameColumns(tv, op, o), forall t :: TvHas(r, tv, op, o, t) <==> OpHas(r, tv, op, o, t),
                      TimesDistinct(r, tv.rows, o.tvTime, o.window) && TimesDistinct(r, op.rows, o.opTime, o.window),
                      TimesReadable(r, tv.rows, o.tvTime) && TimesReadable(r, op.rows, o.opTime))
    ensures PlotStatus(s) == Skipped <==> columns == []
  {
    ghost var x, y;
    s, x, y := CompareTimed(r, tv, op, o);
    columns := TimedColumns(tv, op, o);
    times := CommonTimes(x, y, SharedLatest(TvSide(r, tv, op, o), OpSide(r, op, o), o));
    xs, ys := RowsAt(x.rows, times), RowsAt(y.rows, times);
    TimedColumnsExactly(tv, op, o);
    IndexedRowsAre(r, tv, op, o, x, y);
    DifferingExactly(r, true, columns, xs, ys);
    ColumnsMatchExactly(tv, op, o);
    TimedAgreeExactly(r, tv, op, o);
    WellTimedMeans(r, TvSide(r, tv, op, o), o.tvTime, o.window);
    WellTimedMeans(r, OpSide(r, op, o), o.opTime, o.window);
    SameTimesMeans(r, tv, op, o);
  }

  lemma SubsetExactly<T>(a: set<T>, b: set<T>)
    ensures a - b == {} <==> a <= b
  {
    if a - b == {} {
      assert forall x :: x in a ==> x in a - b || x in b;
    }
  }

  // ----- the verdict over plots, equity and trades

  datatype Status = Match | Mismatch | Skipped | Incomplete

  function PlotStatus(s: Summary): Status {
    if s.matched then Match
    else if s.total == 0 && s.columns == 0 && NoCommonColumns in s.classification && NoComparableCells in s.classification
    then Skipped else Mismatch
  }

  function OtherStatus(s: Summary): Status {
    if s.matched then Match else Mismatch
  }

  datatype Kind = Plots | Equity | Trades

  /** `_compare_strategy_run_with_tv_exports`: the status of the comparisons that were made. */
  method Verdict(plots: Option<Summary>, equity: Option<Summary>, trades: Option<Summary>) returns (status: Status)
    ensures status == Match <==>
            plots.Some? && equity.Some? && trades.Some? && plots.value.matched && equity.value.matched && trades.value.matched
    ensures status == Mismatch <==>
            || (plots.Some? && !plots.value.matched
                && !(plots.value.columns == 0 && plots.value.total == 0
                     && NoCommonColumns in plots.value.classification && NoComparableCells in plots.value.classification))
            || (equity.Some? && !equity.value.matched) || (trades.Some? && !trades.value.matched)
    ensures status != Skipped
  {
    var comparisons: seq<(Kind, Status)> := [];
    var failures := 0;
    if plots.Some? {
      comparisons := comparisons + [(Plots, PlotStatus(plots.value))];
      if PlotStatus(plots.value) == Mismatch {
        failures := failures + 1;
      }
    }
    if equity.Some? {
      comparisons := comparisons + [(Equity, OtherStatus(equity.value))];
      if OtherStatus(equity.value) != Match {
        failures := failures + 1;
      }
    }
    if trades.Some? {
      comparisons := comparisons + [(Trades, OtherStatus(trades.value))];
      if OtherStatus(trades.value) != Match {
        failures := failures + 1;
      }
    }
    var types := set c | c in comparisons :: c.0;
    var evidenceComplete := types == {Plots, Equity, Trades};
    var allMatched := comparisons != [] && forall c :: c in comparisons ==> c.1 == Match;
    status := if evidenceComplete && allMatched && failures == 0 then Match
              else if failures != 0 then Mismatch else Incomplete;
  }
}
