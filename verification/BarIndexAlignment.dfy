/** Recovery of Pine's `bar_index` offset from a TradingView chart export
    (openpine/batch/runner.py): a plotted bar counter when there is one, otherwise the periodic
    NA masks of the other plots, merged by incremental Chinese remaindering. */
module BarIndexAlignment {
  import opened NumberTheory
  import opened Prelude

  // ----- the chart as read from CSV

  /** One cell. `parsed` is what numeric coercion makes of a text cell. */
  datatype Cell =
    | Na
    | Number(value: real)
    | Text(text: string, parsed: Option<real>)

  datatype Column = Column(name: string, cells: seq<Cell>)

  type Frame = seq<Column>

  const IGNORED: set<string> := {"time", "bar_time", "open", "high", "low", "close", "volume", "Volume"}

  const MAX_PERIOD := 128

  const TOLERANCE := 0.000000001

  predicate Missing(cell: Cell) {
    cell.Na? || (cell.Text? && cell.text == "")
  }

  function Coerced(cell: Cell): Option<real> {
    match cell
    case Na => None
    case Number(v) => Some(v)
    case Text(_, parsed) => parsed
  }

  // ----- one column as a congruence on bar_index

  /** `rows` lists the rows at or after `from` whose cell is missing, ascending. */
  ghost predicate NaRows(cells: seq<Cell>, from: nat, rows: seq<int>) {
    && (forall k :: 0 <= k < |rows| ==> from <= rows[k] < |cells|)
    && (forall j, k :: 0 <= j < k < |rows| ==> rows[j] < rows[k])
    && (forall i :: from <= i < |cells| ==> (i in rows <==> Missing(cells[i])))
  }

  function NaPositions(cells: seq<Cell>, from: nat := 0): (rows: seq<int>)
    requires from <= |cells|
    ensures NaRows(cells, from, rows)
    decreases |cells| - from
  {
    if from == |cells| then []
    else
      var rest := NaPositions(cells, from + 1);
      if Missing(cells[from]) then [from] + rest else rest
  }

  predicate EvenlySpaced(rows: seq<int>, period: int) {
    forall k :: 0 <= k < |rows| - 1 ==> rows[k + 1] == rows[k] + period
  }

  /** The missing cells of the column are exactly the rows `first`, `first + period`, ..., `last`. */
  ghost predicate PeriodicMask(cells: seq<Cell>, period: int, first: int, last: int) {
    && period > 0
    && 0 <= first <= last < |cells|
    && Divides(period, last - first)
    && forall i :: 0 <= i < |cells| ==> (Missing(cells[i]) <==> OnGrid(period, first, last, i))
  }

  ghost predicate OnGrid(period: int, first: int, last: int, i: int) {
    first <= i <= last && Divides(period, i - first)
  }

  /** "`bar_index` of the first visible bar is `residue` modulo `period`", read off column `column`. */
  datatype Congruence = Congruence(column: nat, period: int, residue: int)

  type Constraint = c: Congruence | c.period >= 2 && 0 <= c.residue < c.period
    witness Congruence(0, 2, 0)

  function ColumnConstraint(df: Frame, j: nat): Option<Constraint>
    requires j < |df|
  {
    var rows := NaPositions(df[j].cells);
    if df[j].name in IGNORED || |rows| < 3 then None
    else
      var period := rows[1] - rows[0];
      if 2 <= period <= MAX_PERIOD && EvenlySpaced(rows, period)
      then Some(Congruence(j, period, (-rows[0]) % period))
      else None
  }

  function Detector(df: Frame): int -> Option<Constraint> {
    (j: int) => if 0 <= j < |df| then ColumnConstraint(df, j) else None
  }

  ghost function Collected(detect: int -> Option<Constraint>, n: nat): seq<Constraint> {
    if n == 0 then []
    else
      var rest := Collected(detect, n - 1);
      match detect(n - 1)
      case None => rest
      case Some(c) => rest + [c]
  }

  ghost function ConstraintsOf(df: Frame): seq<Constraint> {
    Collected(Detector(df), |df|)
  }

  lemma {:induction false} EvenlySpacedRow(rows: seq<int>, period: int, k: nat)
    requires k < |rows| && EvenlySpaced(rows, period)
    ensures rows[k] - rows[0] == period * k
  {
    if k > 0 {
      EvenlySpacedRow(rows, period, k - 1);
      assert rows[(k - 1) + 1] == rows[k - 1] + period;
      Distribute(period, k - 1, 1);
    }
  }

  lemma OnGridIsListed(rows: seq<int>, period: int, i: int)
    requires |rows| > 0 && period > 0 && EvenlySpaced(rows, period)
    requires OnGrid(period, rows[0], rows[|rows| - 1], i)
    ensures i in rows
  {
    var k := Quotient(period, i - rows[0]);
    EvenlySpacedRow(rows, period, |rows| - 1);
    NonNegativeFactor(period, k);
    NonNegativeFactor(period, |rows| - 1 - k) by {
      Distribute(period, |rows| - 1, k);
    }
    EvenlySpacedRow(rows, period, k);
    assert rows[k] == i;
  }

  lemma NonNegativeFactor(m: int, k: int)
    requires m > 0 && m * k >= 0
    ensures k >= 0
  {
  }

  lemma NextMultiple(period: int, i: int)
    requires period > 0 && i > 0 && Divides(period, i)
    ensures period <= i
  {
  }

  /** Evenly spaced NA rows and a periodic mask are the same thing; this half reads the mask off
      the rows. */
  lemma SpacingIsMask(cells: seq<Cell>, rows: seq<int>, period: int)
    requires NaRows(cells, 0, rows) && |rows| > 0 && period > 0 && EvenlySpaced(rows, period)
    ensures PeriodicMask(cells, period, rows[0], rows[|rows| - 1])
  {
    var first, last := rows[0], rows[|rows| - 1];
    EvenlySpacedRow(rows, period, |rows| - 1);
    MultipleDivides(period, |rows| - 1);
    forall i | 0 <= i < |cells|
      ensures Missing(cells[i]) <==> OnGrid(period, first, last, i)
    {
      if OnGrid(period, first, last, i) {
        OnGridIsListed(rows, period, i);
      }
      if Missing(cells[i]) {
        var k: nat :| k < |rows| && rows[k] == i;
        EvenlySpacedRow(rows, period, k);
        MultipleDivides(period, k);
        assert first <= i <= last;
      }
    }
  }

  /** The other half reads the spacing off the mask. */
  lemma MaskIsSpacing(cells: seq<Cell>, rows: seq<int>, period: int, first: int, last: int)
    requires NaRows(cells, 0, rows) && PeriodicMask(cells, period, first, last)
    ensures |rows| > 0 && rows[0] == first && rows[|rows| - 1] == last && EvenlySpaced(rows, period)
  {
    MultipleDivides(period, 0);
    assert OnGrid(period, first, last, first) && OnGrid(period, first, last, last);
    assert first in rows && last in rows;
    assert Missing(cells[rows[0]]) && Missing(cells[rows[|rows| - 1]]);
    forall k | 0 <= k < |rows| - 1
      ensures rows[k + 1] == rows[k] + period
    {
      NeighboursOneApart(cells, rows, period, first, last, k);
    }
  }

  lemma NeighboursOneApart(cells: seq<Cell>, rows: seq<int>, period: int, first: int, last: int, k: nat)
    requires NaRows(cells, 0, rows) && PeriodicMask(cells, period, first, last) && k < |rows| - 1
    ensures rows[k + 1] == rows[k] + period
  {
    var x, y := rows[k], rows[k + 1];
    assert x in rows && y in rows;
    assert OnGrid(period, first, last, x) && OnGrid(period, first, last, y);
    DividesSum(period, y - first, x - first);
    NextMultiple(period, y - x);
    MultipleDivides(period, 1);
    DividesSum(period, x - first, period);
    assert OnGrid(period, first, last, x + period);
    assert x + period in rows;
  }

  /** A column becomes a congruence exactly when its NA mask is periodic: at least three missing
      rows, evenly spaced by a period between 2 and 128, and nothing else missing. */
  lemma ColumnConstraintIsPeriodicMask(df: Frame, j: nat, period: int, first: int, last: int)
    requires j < |df| && df[j].name !in IGNORED
    requires 2 <= period <= MAX_PERIOD && last - first >= 2 * period
    requires PeriodicMask(df[j].cells, period, first, last)
    ensures ColumnConstraint(df, j) == Some(Congruence(j, period, (-first) % period))
  {
    var rows := NaPositions(df[j].cells);
    MaskIsSpacing(df[j].cells, rows, period, first, last);
    EvenlySpacedRow(rows, period, |rows| - 1);
    assert |rows| >= 3 by {
      assert |rows| <= 1 ==> last == first;
      assert period * 1 == period;
    }
    assert rows[0 + 1] == rows[0] + period;
  }

  lemma ColumnConstraintMeansMask(df: Frame, j: nat) returns (first: int, last: int)
    requires j < |df| && ColumnConstraint(df, j).Some?
    ensures var c := ColumnConstraint(df, j).value;
            && c.column == j && df[j].name !in IGNORED && 2 <= c.period <= MAX_PERIOD
            && last - first >= 2 * c.period
            && PeriodicMask(df[j].cells, c.period, first, last)
            && c.residue == (-first) % c.period
  {
    var rows := NaPositions(df[j].cells);
    var period := rows[1] - rows[0];
    first, last := rows[0], rows[|rows| - 1];
    SpacingIsMask(df[j].cells, rows, period);
    assert rows[0] + 2 * period == rows[1 + 1] <= last;
  }

  /** A column other than time, prices and volume whose missing cells are three or more rows at one
      distance, `first` to `last`, and no others. */
  ghost predicate ShowsPeriod(column: Column, period: int, first: int, last: int) {
    && column.name !in {"time", "bar_time", "open", "high", "low", "close", "volume", "Volume"}
    && 2 <= period <= 128 && 0 <= first && first + 2 * period <= last < |column.cells| && Divides(period, last - first)
    && forall i :: 0 <= i < |column.cells| ==>
         (column.cells[i] == Na || (column.cells[i].Text? && column.cells[i].text == "")
          <==> first <= i <= last && Divides(period, i - first))
  }

  /** Exactly which columns become a congruence, and which one. */
  lemma ColumnConstraintExactly(df: Frame, j: nat, c: Constraint)
    requires j < |df|
    ensures ColumnConstraint(df, j) == Some(c) <==>
            c.column == j && exists first, last :: ShowsPeriod(df[j], c.period, first, last) && c.residue == (-first) % c.period
  {
    if ColumnConstraint(df, j) == Some(c) {
      var first, last := ColumnConstraintMeansMask(df, j);
      MaskShows(df[j], c.period, first, last);
    }
    if first, last :| c.column == j && ShowsPeriod(df[j], c.period, first, last) && c.residue == (-first) % c.period {
      MaskShows(df[j], c.period, first, last);
      ColumnConstraintIsPeriodicMask(df, j, c.period, first, last);
    }
  }

  lemma MaskShows(column: Column, period: int, first: int, last: int)
    ensures ShowsPeriod(column, period, first, last) <==>
            && column.name !in IGNORED && 2 <= period <= MAX_PERIOD && last - first >= 2 * period
            && PeriodicMask(column.cells, period, first, last)
  {
    assert forall i :: 0 <= i < |column.cells| ==> (OnGrid(period, first, last, i) <==> first <= i <= last && Divides(period, i - first));
    assert forall i :: 0 <= i < |column.cells| ==>
      (Missing(column.cells[i]) <==> column.cells[i] == Na || (column.cells[i].Text? && column.cells[i].text == ""));
  }

  /** The congruences of the first `n` columns, all of them, in column order. */
  ghost predicate ListsConstraints(detect: int -> Option<Constraint>, n: nat, cs: seq<Constraint>) {
    && (forall i :: 0 <= i < |cs| ==> cs[i].column < n && detect(cs[i].column) == Some(cs[i]))
    && (forall j :: 0 <= j < n && detect(j).Some? ==> detect(j).value in cs)
    && (forall i, j :: 0 <= i < j < |cs| ==> cs[i].column < cs[j].column)
  }

  ghost predicate NamesColumn(detect: int -> Option<Constraint>) {
    forall j: int :: detect(j).Some? ==> detect(j).value.column == j
  }

  lemma {:induction false} ConstraintListUnique(detect: int -> Option<Constraint>, n: nat, cs: seq<Constraint>)
    requires NamesColumn(detect) && ListsConstraints(detect, n, cs)
    ensures cs == Collected(detect, n)
  {
    if n > 0 {
      if detect(n - 1).None? {
        NoneListedLast(detect, n, cs);
        ConstraintListUnique(detect, n - 1, cs);
      } else {
        SomeListedLast(detect, n, cs);
        var front, last := cs[..|cs| - 1], cs[|cs| - 1];
        ConstraintListUnique(detect, n - 1, front);
        assert cs == front + [last];
      }
    }
  }

  lemma NoneListedLast(detect: int -> Option<Constraint>, n: nat, cs: seq<Constraint>)
    requires n > 0 && ListsConstraints(detect, n, cs) && detect(n - 1).None?
    ensures ListsConstraints(detect, n - 1, cs)
  {
  }

  lemma SomeListedLast(detect: int -> Option<Constraint>, n: nat, cs: seq<Constraint>)
    requires n > 0 && NamesColumn(detect) && ListsConstraints(detect, n, cs) && detect(n - 1).Some?
    ensures cs != [] && cs[|cs| - 1] == detect(n - 1).value && ListsConstraints(detect, n - 1, cs[..|cs| - 1])
  {
  }

  /** The column loop: every column that is periodic, in column order. */
  method CollectConstraints(df: Frame) returns (constraints: seq<Constraint>)
    ensures ListsConstraints(Detector(df), |df|, constraints)
  {
    constraints := [];
    for j := 0 to |df|
      invariant ListsConstraints(Detector(df), j, constraints)
    {
      var constraint := DetectPeriod(df, j);
      if constraint.Some? {
        constraints := constraints + [constraint.value];
      }
    }
  }

  /** One round of the column loop. */
  method DetectPeriod(df: Frame, j: nat) returns (constraint: Option<Constraint>)
    requires j < |df|
    ensures constraint == ColumnConstraint(df, j)
  {
    if df[j].name in IGNORED {
      return None;
    }
    var rows := NaPositions(df[j].cells);
    if |rows| < 3 {
      return None;
    }
    var period := rows[1] - rows[0];
    if period < 2 || period > MAX_PERIOD || !EvenlySpaced(rows, period) {
      return None;
    }
    constraint := Some(Congruence(j, period, (-rows[0]) % period));
  }

  lemma {:induction false} CollectedFromColumns(detect: int -> Option<Constraint>, n: nat, c: Constraint)
    requires NamesColumn(detect) && c in Collected(detect, n)
    ensures c.column < n && detect(c.column) == Some(c)
  {
    if detect(n - 1) != Some(c) {
      CollectedFromColumns(detect, n - 1, c);
    }
  }

  // ----- merging congruences

  ghost predicate Satisfies(z: int, c: Constraint) {
    Congruent(c.period, z, c.residue)
  }

  ghost predicate Solves(z: int, cs: seq<Constraint>) {
    forall i :: 0 <= i < |cs| ==> Satisfies(z, cs[i])
  }

  ghost predicate Consistent(cs: seq<Constraint>) {
    exists z: int :: Solves(z, cs)
  }

  /** The greedy choice, said without arithmetic: keep a constraint when some integer satisfies it
      together with everything kept before it. */
  ghost function Greedy(cs: seq<Constraint>): seq<Constraint> {
    if cs == [] then []
    else
      var kept := Greedy(cs[..|cs| - 1]);
      var last := cs[|cs| - 1];
      if Consistent(kept + [last]) then kept + [last] else kept
  }

  /** `m` is the least common multiple of the periods: its multiples are their common multiples. */
  ghost predicate IsLcmOf(m: int, cs: seq<Constraint>) {
    && m > 0
    && forall z: int :: Divides(m, z) <==> DividedByAll(cs, z)
  }

  ghost predicate DividedByAll(cs: seq<Constraint>, z: int) {
    forall i :: 0 <= i < |cs| ==> Divides(cs[i].period, z)
  }

  /** `residue` modulo `modulus` is the whole solution set of `cs`. */
  ghost predicate Represents(modulus: int, residue: int, cs: seq<Constraint>) {
    && IsLcmOf(modulus, cs)
    && 0 <= residue < modulus
    && forall z: int :: Solves(z, cs) <==> Congruent(modulus, z, residue)
  }

  lemma SolvesAppend(z: int, cs: seq<Constraint>, c: Constraint)
    ensures Solves(z, cs + [c]) <==> Solves(z, cs) && Satisfies(z, c)
    ensures DividedByAll(cs + [c], z) <==> DividedByAll(cs, z) && Divides(c.period, z)
  {
    var ds := cs + [c];
    assert ds[|cs|] == c;
    assert forall i :: 0 <= i < |cs| ==> ds[i] == cs[i];
    if Solves(z, ds) {
      assert Satisfies(z, ds[|cs|]);
      assert forall i :: 0 <= i < |cs| ==> Satisfies(z, ds[i]);
    }
    if DividedByAll(ds, z) {
      assert Divides(ds[|cs|].period, z);
      assert forall i :: 0 <= i < |cs| ==> Divides(ds[i].period, z);
    }
  }

  /** The source's compatibility test decides exactly whether the constraint can be kept. */
  lemma GcdTestDecidesConsistency(modulus: nat, residue: nat, cs: seq<Constraint>, c: Constraint)
    requires Represents(modulus, residue, cs)
    ensures Gcd(modulus, c.period) > 0
    ensures (c.residue - residue) % Gcd(modulus, c.period) == 0 <==> Consistent(cs + [c])
  {
    var g := Gcd(modulus, c.period);
    GcdPositive(modulus, c.period);
    DividesRemainder(g, c.residue - residue);
    if Congruent(g, c.residue, residue) {
      var k := SearchHits(modulus, residue, c.period, c.residue);
      var z := residue + modulus * k;
      assert IsProduct(modulus, k, z - residue);
      assert Congruent(modulus, z, residue);
      SolvesAppend(z, cs, c);
    }
    if Consistent(cs + [c]) {
      var z :| Solves(z, cs + [c]);
      SolvesAppend(z, cs, c);
      SolvableMeansGcd(modulus, residue, c.period, c.residue, z);
    }
  }

  /** One merge: a common solution below the lcm represents the extended system. */
  lemma MergeStep(modulus: nat, residue: nat, cs: seq<Constraint>, c: Constraint, merged: nat)
    requires Represents(modulus, residue, cs)
    requires merged < Lcm(modulus, c.period)
    requires Congruent(modulus, merged, residue) && Satisfies(merged, c)
    ensures Represents(Lcm(modulus, c.period), merged, cs + [c])
  {
    var l := Lcm(modulus, c.period);
    forall z: int
      ensures Divides(l, z) <==> DividedByAll(cs + [c], z)
      ensures Solves(z, cs + [c]) <==> Congruent(l, z, merged)
    {
      SolvesAppend(z, cs, c);
      LcmIsLeastCommonMultiple(modulus, c.period, z);
      LcmIsLeastCommonMultiple(modulus, c.period, z - merged);
      CongruentReplace(modulus, z, merged, residue);
      CongruentReplace(c.period, z, merged, c.residue);
    }
  }

  lemma EverythingRepresented()
    ensures Represents(1, 0, [])
  {
    forall z: int
      ensures Divides(1, z) && Congruent(1, z, 0)
    {
      MultipleDivides(1, z);
    }
  }

  /** The gcd/lcm loop. It keeps exactly the greedy constraints, and its residue and modulus are
      their whole solution set. */
  method MergeConstraints(constraints: seq<Constraint>)
    returns (modulus: nat, residue: nat, used: seq<Constraint>)
    ensures used == Greedy(constraints)
    ensures Represents(modulus, residue, used)
  {
    modulus, residue, used := 1, 0, [];
    EverythingRepresented();
    for i := 0 to |constraints|
      invariant used == Greedy(constraints[..i])
      invariant Represents(modulus, residue, used)
    {
      var item := constraints[i];
      assert constraints[..i + 1][..i] == constraints[..i];
      GcdTestDecidesConsistency(modulus, residue, used, item);
      var gcd := Gcd(modulus, item.period);
      if (item.residue - residue) % gcd != 0 {
        continue;
      }
      var combinedModulus := Lcm(modulus, item.period);
      var candidate := FirstCandidate(modulus, residue, item.period, item.residue, combinedModulus);
      MergeStep(modulus, residue, used, item, candidate);
      modulus, residue, used := combinedModulus, candidate, used + [item];
    }
    assert constraints[..|constraints|] == constraints;
  }

  /** `next(c for c in range(residue, combined, modulus) if c % period == wanted)`: the range always
      holds such a value, and the first one is returned. */
  method FirstCandidate(modulus: nat, residue: nat, period: nat, wanted: nat, combined: nat)
    returns (candidate: nat)
    requires residue < modulus && wanted < period
    requires combined == Lcm(modulus, period)
    requires Gcd(modulus, period) > 0 && (wanted - residue) % Gcd(modulus, period) == 0
    ensures candidate < combined
    ensures Congruent(modulus, candidate, residue) && Congruent(period, candidate, wanted)
  {
    ghost var k := HitIndex(modulus, residue, period, wanted);
    ghost var j := 0;
    candidate := residue;
    while candidate < combined && candidate % period != wanted
      invariant 0 <= j <= k && candidate == residue + modulus * j
      invariant candidate < combined
      decreases k - j
    {
      StillInRange(modulus, residue, period, wanted, combined, j, k);
      candidate, j := candidate + modulus, j + 1;
    }
    assert IsProduct(modulus, j, candidate - residue);
    RemainderIs(period, candidate, wanted);
  }

  lemma HitIndex(modulus: nat, residue: nat, period: nat, wanted: nat) returns (k: nat)
    requires residue < modulus && wanted < period
    requires Gcd(modulus, period) > 0 && (wanted - residue) % Gcd(modulus, period) == 0
    ensures modulus * k + modulus <= Lcm(modulus, period) && residue < Lcm(modulus, period)
    ensures Congruent(period, residue + modulus * k, wanted)
  {
    DividesRemainder(Gcd(modulus, period), wanted - residue);
    k := SearchHits(modulus, residue, period, wanted);
    MonotoneProduct(modulus, 0, k);
  }

  lemma StillInRange(modulus: nat, residue: nat, period: nat, wanted: nat, combined: nat, j: nat, k: nat)
    requires wanted < period && residue < modulus && j <= k
    requires modulus * k + modulus <= combined
    requires Congruent(period, residue + modulus * k, wanted)
    requires (residue + modulus * j) % period != wanted
    ensures j < k && residue + modulus * j + modulus == residue + modulus * (j + 1) < combined
  {
    RemainderIs(period, residue + modulus * k, wanted);
    MonotoneProduct(modulus, j + 1, k);
    Distribute(modulus, j, 1);
  }

  lemma {:induction false} GreedyConsistent(cs: seq<Constraint>)
    ensures Consistent(Greedy(cs))
  {
    if cs == [] {
      assert Solves(0, []);
    } else {
      GreedyConsistent(cs[..|cs| - 1]);
    }
  }

  lemma {:induction false} GreedyGrows(cs: seq<Constraint>, n: nat)
    requires n <= |cs|
    ensures Greedy(cs[..n]) <= Greedy(cs)
  {
    if n < |cs| {
      var front := cs[..|cs| - 1];
      GreedyGrows(front, n);
      assert front[..n] == cs[..n];
    } else {
      assert cs[..n] == cs;
    }
  }

  /** The greedy choice is maximal: whatever it left out contradicts what it kept. */
  lemma GreedyMaximal(cs: seq<Constraint>, n: nat)
    requires n < |cs|
    ensures cs[n] in Greedy(cs) || !Consistent(Greedy(cs) + [cs[n]])
  {
    var before, upTo := Greedy(cs[..n]), Greedy(cs[..n + 1]);
    assert cs[..n + 1][..n] == cs[..n];
    GreedyGrows(cs, n);
    GreedyGrows(cs, n + 1);
    if Consistent(Greedy(cs) + [cs[n]]) {
      var z :| Solves(z, Greedy(cs) + [cs[n]]);
      SolvesAppend(z, Greedy(cs), cs[n]);
      SolvesAppend(z, before, cs[n]);
      assert forall i :: 0 <= i < |before| ==> before[i] == Greedy(cs)[i];
      assert Solves(z, before);
      assert cs[n] == upTo[|before|];
    }
  }

  lemma {:induction false} GreedyKeepsOnlyGiven(cs: seq<Constraint>, c: Constraint)
    requires c in Greedy(cs)
    ensures c in cs
  {
    var front := cs[..|cs| - 1];
    if c in Greedy(front) {
      GreedyKeepsOnlyGiven(front, c);
    }
  }

  // ----- the offset

  datatype PeriodicMeta = PeriodicMeta(modulus: nat, residue: nat, offset: nat, used: seq<Constraint>)

  /** Every row between the column's first and last NA is NA exactly when its `bar_index`, with the
      first visible bar numbered `start`, is a multiple of the period. */
  ghost predicate Aligned(cells: seq<Cell>, period: int, start: int) {
    && period > 0
    && exists first, last ::
         && PeriodicMask(cells, period, first, last)
         && last - first >= 2 * period
         && forall i :: first <= i <= last ==> (Missing(cells[i]) <==> Divides(period, start + i))
  }

  lemma SatisfiesMeansAligned(df: Frame, c: Constraint, start: int)
    requires c.column < |df| && ColumnConstraint(df, c.column) == Some(c)
    ensures Aligned(df[c.column].cells, c.period, start) <==> Satisfies(start, c)
  {
    var cells := df[c.column].cells;
    var first, last := ColumnConstraintMeansMask(df, c.column);
    RemainderIs(c.period, -first, c.residue);
    CongruentReplace(c.period, start, -first, c.residue);
    assert start - -first == start + first;
    if Satisfies(start, c) {
      MaskAligns(cells, c.period, first, last, start);
    }
    if Aligned(cells, c.period, start) {
      AlignedAtFirst(cells, c.period, first, last, start);
    }
  }

  lemma MaskAligns(cells: seq<Cell>, period: int, first: int, last: int, start: int)
    requires period > 0 && PeriodicMask(cells, period, first, last) && last - first >= 2 * period
    requires Divides(period, start + first)
    ensures Aligned(cells, period, start)
  {
    forall i | first <= i <= last
      ensures Missing(cells[i]) <==> Divides(period, start + i)
    {
      ShiftedMultiple(period, start + first, i - first);
    }
  }

  lemma AlignedAtFirst(cells: seq<Cell>, period: int, first: int, last: int, start: int)
    requires PeriodicMask(cells, period, first, last) && last - first >= 2 * period
    requires Aligned(cells, period, start)
    ensures Divides(period, start + first)
  {
    var f, l :| PeriodicMask(cells, period, f, l) && l - f >= 2 * period
                && forall i :: f <= i <= l ==> (Missing(cells[i]) <==> Divides(period, start + i));
    var rows := NaPositions(cells);
    MaskIsSpacing(cells, rows, period, first, last);
    MaskIsSpacing(cells, rows, period, f, l);
    assert rows[0] in rows;
    assert Missing(cells[first]);
  }

  lemma ShiftedMultiple(m: int, shift: int, z: int)
    requires Divides(m, shift)
    ensures Divides(m, z) <==> Divides(m, shift + z)
  {
    if Divides(m, z) {
      DividesSum(m, shift, z);
    }
    if Divides(m, shift + z) {
      DividesSum(m, shift + z, shift);
    }
  }

  ghost function UsedConstraints(df: Frame): seq<Constraint> {
    Greedy(ConstraintsOf(df))
  }

  ghost predicate AllAligned(df: Frame, used: seq<Constraint>, start: int) {
    forall i :: 0 <= i < |used| ==>
      used[i].column < |df| && Aligned(df[used[i].column].cells, used[i].period, start)
  }

  lemma AllAlignedIsSolving(df: Frame, start: int)
    ensures AllAligned(df, UsedConstraints(df), start) <==> Solves(start, UsedConstraints(df))
  {
    var used := UsedConstraints(df);
    forall i | 0 <= i < |used|
      ensures used[i].column < |df|
      ensures Aligned(df[used[i].column].cells, used[i].period, start) <==> Satisfies(start, used[i])
    {
      GreedyKeepsOnlyGiven(ConstraintsOf(df), used[i]);
      CollectedFromColumns(Detector(df), |df|, used[i]);
      SatisfiesMeansAligned(df, used[i], start);
    }
  }

  /** The column loop followed by the merge loop; no constraints leave nothing to merge. */
  method MergeColumns(df: Frame) returns (modulus: nat, residue: nat, used: seq<Constraint>)
    ensures used == UsedConstraints(df) && Represents(modulus, residue, used)
  {
    var constraints := CollectConstraints(df);
    ConstraintListUnique(Detector(df), |df|, constraints);
    if constraints == [] {
      EverythingRepresented();
      return 1, 0, [];
    }
    modulus, residue, used := MergeConstraints(constraints);
  }

  /** An offset is inferred exactly when two or more columns are kept; it aligns all of them, and
      every first bar index that aligns all of them is the same modulo the reported modulus. */
  method InferFromPeriodicNa(df: Frame, firstVisible: nat) returns (offset: nat, meta: Option<PeriodicMeta>)
    ensures meta.Some? <==> |UsedConstraints(df)| >= 2
    ensures meta.None? ==> offset == 0
    ensures meta.Some? ==>
              && meta.value.used == UsedConstraints(df)
              && IsLcmOf(meta.value.modulus, meta.value.used)
              && meta.value.offset == offset < meta.value.modulus
              && AllAligned(df, meta.value.used, firstVisible + offset)
    ensures meta.Some? ==>
              forall start: int :: AllAligned(df, meta.value.used, start)
                                   <==> Congruent(meta.value.modulus, start, firstVisible + offset)
  {
    var modulus, residue, used := MergeColumns(df);
    if |used| >= 2 {
      ModulusAboveOne(modulus, used);
    }
    if |used| < 2 || modulus <= 1 {
      return 0, None;
    }
    var currentResidue := firstVisible % modulus;
    offset := (residue - currentResidue) % modulus;
    meta := Some(PeriodicMeta(modulus, residue, offset, used));
    OffsetSolves(modulus, residue, firstVisible, offset);
    forall start: int
      ensures AllAligned(df, used, start) <==> Congruent(modulus, start, firstVisible + offset)
    {
      AllAlignedIsSolving(df, start);
      CongruentReplace(modulus, start, firstVisible + offset, residue);
    }
    CongruentReflexive(modulus, firstVisible + offset);
  }

  lemma ModulusAboveOne(modulus: int, used: seq<Constraint>)
    requires IsLcmOf(modulus, used) && |used| > 0
    ensures modulus > 1
  {
    MultipleDivides(modulus, 1);
    assert DividedByAll(used, modulus);
    NextMultiple(used[0].period, modulus);
  }

  lemma OffsetSolves(modulus: int, residue: int, firstVisible: int, offset: int)
    requires 0 <= residue < modulus && offset == (residue - firstVisible % modulus) % modulus
    ensures Congruent(modulus, firstVisible + offset, residue)
  {
    var q, current := DivMod(firstVisible, modulus);
    RemainderIs(modulus, residue - current, offset);
    MultipleDivides(modulus, q);
    DividesSum(modulus, modulus * q, residue - current - offset);
  }

  // ----- plotted bar counters

  function UpperChar(c: char): char {
    if 'a' <= c <= 'z' then c - 'a' + 'A' else c
  }

  predicate NamesBar(name: string) {
    exists i :: 0 <= i <= |name| - 3 &&
      UpperChar(name[i]) == 'B' && UpperChar(name[i + 1]) == 'A' && UpperChar(name[i + 2]) == 'R'
  }

  /** Row `i` of the column reads `start + i`, up to the comparison tolerance. */
  predicate Counts(cells: seq<Cell>, start: int) {
    forall i :: 0 <= i < |cells| ==>
      Coerced(cells[i]).Some? && Abs(Coerced(cells[i]).value - (start + i) as real) <= TOLERANCE
  }

  /** The bar number a counter column gives its first row; `None` for any other column. */
  function CounterStart(column: Column): (start: Option<int>)
    ensures start.Some? ==> Counts(column.cells, start.value) && |column.cells| >= 2
  {
    var cells := column.cells;
    if column.name in IGNORED || !NamesBar(column.name) || |cells| < 2 || Coerced(cells[0]).None? then None
    else
      var first := Coerced(cells[0]).value;
      if first == first.Floor as real && Counts(cells, first.Floor) then Some(first.Floor) else None
  }

  /** The cell is a number, or a text that coerces to one. */
  ghost predicate Reads(cell: Cell, value: real) {
    cell == Number(value) || (cell.Text? && cell.parsed == Some(value))
  }

  ghost predicate ReadsNear(cell: Cell, n: int) {
    exists value :: Reads(cell, value) && n as real - 0.000000001 <= value <= n as real + 0.000000001
  }

  /** A column other than time, prices and volume, named with "bar" in any case, of two or more rows
      that read as consecutive numbers from `start` on, the first one exactly. */
  ghost predicate ShowsBarNumbers(column: Column, start: int) {
    && column.name !in {"time", "bar_time", "open", "high", "low", "close", "volume", "Volume"}
    && (exists i :: SpellsBar(column.name, i))
    && |column.cells| >= 2 && Reads(column.cells[0], start as real)
    && forall i :: 0 <= i < |column.cells| ==> ReadsNear(column.cells[i], start + i)
  }

  ghost predicate SpellsBar(name: string, i: int) {
    && 0 <= i < |name| - 2 && (name[i] == 'b' || name[i] == 'B')
    && (name[i + 1] == 'a' || name[i + 1] == 'A') && (name[i + 2] == 'r' || name[i + 2] == 'R')
  }

  lemma NamesBarExactly(name: string)
    ensures NamesBar(name) <==> exists i :: SpellsBar(name, i)
  {
    forall i | 0 <= i <= |name| - 3
      ensures SpellsBar(name, i) <==>
              UpperChar(name[i]) == 'B' && UpperChar(name[i + 1]) == 'A' && UpperChar(name[i + 2]) == 'R'
    {
      Letter(name[i], 'b', 'B');
      Letter(name[i + 1], 'a', 'A');
      Letter(name[i + 2], 'r', 'R');
    }
  }

  lemma Letter(c: char, lower: char, upper: char)
    requires 'A' <= upper <= 'Z' && lower == upper - 'A' + 'a'
    ensures UpperChar(c) == upper <==> c == lower || c == upper
  {
  }

  lemma CountsExactly(cells: seq<Cell>, start: int)
    ensures Counts(cells, start) <==> forall i :: 0 <= i < |cells| ==> ReadsNear(cells[i], start + i)
  {
    forall i | 0 <= i < |cells|
      ensures ReadsNear(cells[i], start + i) <==>
              Coerced(cells[i]).Some? && Abs(Coerced(cells[i]).value - (start + i) as real) <= TOLERANCE
    {
      assert Coerced(cells[i]).Some? ==> Reads(cells[i], Coerced(cells[i]).value);
    }
  }

  /** Exactly which columns count bars, and from where. */
  lemma CounterStartExactly(column: Column, start: int)
    ensures CounterStart(column) == Some(start) <==> ShowsBarNumbers(column, start)
  {
    NamesBarExactly(column.name);
    CountsExactly(column.cells, start);
    if |column.cells| >= 2 && Coerced(column.cells[0]).Some? {
      var first := Coerced(column.cells[0]).value;
      assert Reads(column.cells[0], start as real) <==> first == start as real;
      assert first == start as real ==> first.Floor == start;
    }
  }

  datatype Alignment =
    | NoAlignment
    | Ambiguous
    | InferredCounter(column: nat, tvFirstBarIndex: int)
    | InferredPeriodicNa(meta: PeriodicMeta)

  ghost predicate Shows(df: Frame, j: int, start: int) {
    0 <= j < |df| && ShowsBarNumbers(df[j], start)
  }

  /** The counting columns, each with the first bar number it shows, in column order. */
  ghost predicate ListsCounters(df: Frame, n: nat, counters: seq<(nat, int)>) {
    && (forall k :: 0 <= k < |counters| ==> counters[k].0 < n && Shows(df, counters[k].0, counters[k].1))
    && (forall j: nat, start :: j < n && Shows(df, j, start) ==> (j, start) in counters)
    && (forall i, k :: 0 <= i < k < |counters| ==> counters[i].0 < counters[k].0)
  }

  method CollectCounters(df: Frame) returns (counters: seq<(nat, int)>)
    ensures ListsCounters(df, |df|, counters)
  {
    counters := [];
    for j := 0 to |df|
      invariant ListsCounters(df, j, counters)
    {
      var start := CounterStart(df[j]);
      forall n
        ensures Shows(df, j, n) <==> start == Some(n)
      {
        CounterStartExactly(df[j], n);
      }
      if start.Some? {
        counters := counters + [(j, start.value)];
      }
    }
  }

  /** Every counting column shows the same first bar number. */
  ghost predicate AllShow(df: Frame, first: int) {
    forall j, start :: Shows(df, j, start) ==> start == first
  }

  /** The offsets are one exactly when all counting columns agree. */
  lemma CountersAgree(df: Frame, counters: seq<(nat, int)>, firstVisible: int, offsets: set<int>)
    requires ListsCounters(df, |df|, counters) && counters != []
    requires offsets == set c | c in counters :: c.1 - firstVisible
    ensures |offsets| == 1 <==> AllShow(df, counters[0].1)
    ensures Shows(df, counters[0].0, counters[0].1)
    ensures forall j, start :: Shows(df, j, start) ==> counters[0].0 <= j
  {
    var head := counters[0].1 - firstVisible;
    assert counters[0] in counters;
    forall j: nat, start | Shows(df, j, start)
      ensures counters[0].0 <= j && start - firstVisible in offsets
    {
      assert (j, start) in counters;
      var k :| 0 <= k < |counters| && counters[k] == (j, start);
    }
    if |offsets| == 1 {
      SingletonMember(offsets, head);
    }
    if AllShow(df, counters[0].1) {
      forall c | c in counters
        ensures c.1 == counters[0].1
      {
        var k :| 0 <= k < |counters| && counters[k] == c;
        assert Shows(df, c.0, c.1);
      }
      assert offsets == {head};
    }
  }

  method FirstVisible(barTimes: seq<int>, startMs: int) returns (index: Option<nat>)
    ensures index.None? <==> forall i :: 0 <= i < |barTimes| ==> barTimes[i] < startMs
    ensures index.Some? ==> index.value < |barTimes| && barTimes[index.value] >= startMs
                            && forall i :: 0 <= i < index.value ==> barTimes[i] < startMs
  {
    for i := 0 to |barTimes|
      invariant forall k :: 0 <= k < i ==> barTimes[k] < startMs
    {
      if barTimes[i] >= startMs {
        return Some(i);
      }
    }
    return None;
  }

  /** The whole inference. When the counter columns agree, the offset makes every one of them read
      the shifted bar index; when they disagree nothing is shifted; the periodic masks decide only
      when no column counts bars. */
  method InferBarIndexOffset(df: Frame, barTimes: seq<int>, startMs: int)
    returns (offset: int, alignment: Alignment, firstVisible: Option<nat>)
    ensures firstVisible.None? <==> forall i :: 0 <= i < |barTimes| ==> barTimes[i] < startMs
    ensures firstVisible.None? ==> alignment == NoAlignment
    ensures firstVisible.Some? ==> firstVisible.value < |barTimes| && barTimes[firstVisible.value] >= startMs
                                   && forall i :: 0 <= i < firstVisible.value ==> barTimes[i] < startMs
    ensures alignment.NoAlignment? || alignment.Ambiguous? ==> offset == 0
    ensures firstVisible.Some? ==>
              (alignment.InferredCounter? || alignment.Ambiguous? <==> exists j, start :: Shows(df, j, start))
    ensures firstVisible.Some? ==> (alignment.Ambiguous? <==> !exists first :: AllShow(df, first))
    ensures alignment.InferredCounter? ==>
              && firstVisible.Some? && alignment.tvFirstBarIndex == firstVisible.value + offset
              && Shows(df, alignment.column, firstVisible.value + offset)
              && forall j, start :: Shows(df, j, start) ==> start == firstVisible.value + offset && alignment.column <= j
    ensures firstVisible.Some? ==>
              (alignment.InferredPeriodicNa? <==>
                 (forall j, start :: !Shows(df, j, start)) && |UsedConstraints(df)| >= 2)
    ensures alignment.InferredPeriodicNa? ==>
              firstVisible.Some? && AllAligned(df, UsedConstraints(df), firstVisible.value + offset)
  {
    offset, alignment := 0, NoAlignment;
    firstVisible := FirstVisible(barTimes, startMs);
    if firstVisible.None? {
      return;
    }
    var counters := CollectCounters(df);
    if counters == [] {
      NoneShown(df);
      var periodicOffset, meta := InferFromPeriodicNa(df, firstVisible.value);
      if meta.Some? {
        offset, alignment := periodicOffset, InferredPeriodicNa(meta.value);
      }
      return;
    }
    var offsets := set c | c in counters :: c.1 - firstVisible.value;
    CountersAgree(df, counters, firstVisible.value, offsets);
    if |offsets| != 1 {
      alignment := Ambiguous;
      return;
    }
    offset := counters[0].1 - firstVisible.value;
    alignment := InferredCounter(counters[0].0, counters[0].1);
  }

  lemma NoneShown(df: Frame)
    requires ListsCounters(df, |df|, [])
    ensures (forall j, start :: !Shows(df, j, start)) && AllShow(df, 0)
  {
  }

  lemma SingletonMember(s: set<int>, x: int)
    requires |s| == 1 && x in s
    ensures s == {x}
  {
    assert |s - {x}| == 0;
    assert s - {x} == {};
  }
}
