// The publication tables: the LILA and Rural rows of the descriptive statistics table, and
// the table of the fifteen states with the most resilient LILA tracts.

module GenerateTables {
  import opened Wrappers
  import opened Seqs
  import opened Tracts
  import InvestigateAnomalies

  // ---------------------------------------------------------------- Table 1

  /** The FARA indicator columns reported in the descriptive statistics table. */
  datatype Indicator = Lila1And10 | LilaHalfAnd10 | Lila1And20 | LowIncomeTract

  /** The indicators, in the order of the table. */
  const Indicators: seq<Indicator> := [Lila1And10, LilaHalfAnd10, Lila1And20, LowIncomeTract]

  /** The column an indicator reads. */
  function ColumnOf(c: Indicator): Tract -> Num
  {
    match c
    case Lila1And10 => (t: Tract) => t.lila
    case LilaHalfAnd10 => (t: Tract) => t.lilaHalf
    case Lila1And20 => (t: Tract) => t.lila20
    case LowIncomeTract => (t: Tract) => t.lowIncome
  }

  /** The row label of an indicator. */
  function Label(c: Indicator): string
  {
    match c
    case Lila1And10 => "LILA (1+10 miles)"
    case LilaHalfAnd10 => "LILA (0.5+10 miles)"
    case Lila1And20 => "LILA (1+20 miles)"
    case LowIncomeTract => "Low Income Tract"
  }

  /** `col.notna()`. */
  function Valid(col: Tract -> Num): Tract -> bool
  {
    (t: Tract) => col(t).Some?
  }

  /** `col == 1`. */
  function IsOne(col: Tract -> Num): Tract -> bool
  {
    (t: Tract) => col(t) == Some(1.0)
  }

  /** The sum of the values present in a column (pandas skips NaN). */
  function SumPresent(rows: seq<Tract>, col: Tract -> Num): real
  {
    if rows == [] then 0.0
    else (if col(rows[0]).Some? then col(rows[0]).value else 0.0) + SumPresent(rows[1..], col)
  }

  /** `col.mean() * 100`: the mean of the values present, in percent; NaN when none is present. */
  function MeanPct(rows: seq<Tract>, col: Tract -> Num): Num
  {
    var n := Count(rows, Valid(col));
    if n == 0 then None else Some(SumPresent(rows, col) / n as real * 100.0)
  }

  /** One row of the descriptive statistics table: Variable, N, Mean (in percent) and Missing. */
  datatype StatRow = StatRow(variable: string, n: nat, mean: Num, missing: nat)

  /** The row of an indicator: N counts the values present, Mean is 0 when there are none. */
  function IndicatorRow(merged: seq<Tract>, c: Indicator): StatRow
  {
    var n := Count(merged, Valid(ColumnOf(c)));
    StatRow(Label(c), n, if n > 0 then MeanPct(merged, ColumnOf(c)) else Some(0.0), |merged| - n)
  }

  /** `Rural = 1 - Urban`, missing where Urban is. */
  function RuralOf(t: Tract): Num
  {
    if t.urban.Some? then Some(1.0 - t.urban.value) else None
  }

  /** The Rural row: unlike the indicator rows its Mean has no guard and is NaN when no Urban flag is present. */
  function RuralRow(merged: seq<Tract>): StatRow
  {
    var n := Count(merged, Valid(RuralOf));
    StatRow("Rural", n, MeanPct(merged, RuralOf), |merged| - n)
  }

  /** The LILA, Low Income and Rural rows of Table 1, in order. */
  function Table1Rows(merged: seq<Tract>): seq<StatRow>
  {
    seq(|Indicators|, i requires 0 <= i < |Indicators| => IndicatorRow(merged, Indicators[i])) + [RuralRow(merged)]
  }

  /** Values between 0 and 1 sum to at least 0 and at most the number of values present. */
  lemma {:induction false} SumPresentBounds(rows: seq<Tract>, col: Tract -> Num)
    requires forall i :: 0 <= i < |rows| && col(rows[i]).Some? ==> 0.0 <= col(rows[i]).value <= 1.0
    ensures 0.0 <= SumPresent(rows, col) <= Count(rows, Valid(col)) as real
  {
    if rows != [] {
      assert forall i :: 1 <= i < |rows| ==> rows[1..][i - 1] == rows[i];
      SumPresentBounds(rows[1..], col);
    }
  }

  /** When every value present is a 0/1 flag, their sum is the number of ones. */
  lemma {:induction false} SumOfFlags(rows: seq<Tract>, col: Tract -> Num)
    requires forall i :: 0 <= i < |rows| ==> col(rows[i]) == None || col(rows[i]) == Some(0.0) || col(rows[i]) == Some(1.0)
    ensures SumPresent(rows, col) == Count(rows, IsOne(col)) as real
  {
    if rows != [] {
      assert forall i :: 1 <= i < |rows| ==> rows[1..][i - 1] == rows[i];
      SumOfFlags(rows[1..], col);
    }
  }

  /**
   * The mean of a column in percent is missing exactly when no value is present; with values
   * between 0 and 1 it lies between 0 and 100; with 0/1 flags it is the share of ones among
   * the rows that have a value.
   */
  lemma MeanPctSpec(rows: seq<Tract>, col: Tract -> Num)
    ensures MeanPct(rows, col).None? <==> Count(rows, Valid(col)) == 0
    ensures (forall i :: 0 <= i < |rows| && col(rows[i]).Some? ==> 0.0 <= col(rows[i]).value <= 1.0) ==>
              MeanPct(rows, col).Some? ==> 0.0 <= MeanPct(rows, col).value <= 100.0
    ensures (forall i :: 0 <= i < |rows| ==> col(rows[i]) == None || col(rows[i]) == Some(0.0) || col(rows[i]) == Some(1.0)) ==>
              MeanPct(rows, col).Some? ==>
                MeanPct(rows, col).value == Count(rows, IsOne(col)) as real / Count(rows, Valid(col)) as real * 100.0
  {
    var n := Count(rows, Valid(col));
    if n > 0 && forall i :: 0 <= i < |rows| && col(rows[i]).Some? ==> 0.0 <= col(rows[i]).value <= 1.0 {
      SumPresentBounds(rows, col);
      PercentOfWhole(SumPresent(rows, col), n as real);
    }
    if forall i :: 0 <= i < |rows| ==> col(rows[i]) == None || col(rows[i]) == Some(0.0) || col(rows[i]) == Some(1.0) {
      SumOfFlags(rows, col);
    }
  }

  /**
   * An indicator row: N counts the values present and N + Missing is the number of rows;
   * Mean is always reported, is 0 when no value is present and, for 0/1 flags, is the
   * percentage of ones among the rows with a value, between 0 and 100.
   */
  lemma IndicatorRowSpec(merged: seq<Tract>, c: Indicator)
    ensures var r := IndicatorRow(merged, c);
      r.variable == Label(c) &&
      r.n == Count(merged, Valid(ColumnOf(c))) && r.n + r.missing == |merged| &&
      r.mean.Some? && (r.n == 0 ==> r.mean == Some(0.0)) &&
      ((forall i :: 0 <= i < |merged| ==> ColumnOf(c)(merged[i]) == None || ColumnOf(c)(merged[i]) == Some(0.0) || ColumnOf(c)(merged[i]) == Some(1.0)) ==>
         r.n > 0 ==>
           r.mean.value == Count(merged, IsOne(ColumnOf(c))) as real / r.n as real * 100.0 &&
           0.0 <= r.mean.value <= 100.0)
  {
    MeanPctSpec(merged, ColumnOf(c));
  }

  /**
   * The Rural row: N counts the Urban flags present and N + Missing is the number of rows;
   * Mean is NaN exactly when no flag is present and, for 0/1 Urban flags, is the percentage
   * of Urban == 0 rows among the rows with a flag.
   */
  lemma RuralRowSpec(merged: seq<Tract>)
    ensures var r := RuralRow(merged);
      r.variable == "Rural" &&
      r.n == Count(merged, (t: Tract) => t.urban.Some?) && r.n + r.missing == |merged| &&
      (r.mean.None? <==> r.n == 0) &&
      ((forall i :: 0 <= i < |merged| ==> merged[i].urban == Some(0.0) || merged[i].urban == Some(1.0) || merged[i].urban == None) ==>
         r.mean.Some? ==>
           r.mean.value == Count(merged, (t: Tract) => t.urban == Some(0.0)) as real / r.n as real * 100.0 &&
           0.0 <= r.mean.value <= 100.0)
  {
    CountSame(merged, Valid(RuralOf), (t: Tract) => t.urban.Some?);
    CountSame(merged, IsOne(RuralOf), (t: Tract) => t.urban == Some(0.0));
    MeanPctSpec(merged, RuralOf);
    if forall i :: 0 <= i < |merged| ==> merged[i].urban == Some(0.0) || merged[i].urban == Some(1.0) || merged[i].urban == None {
      assert forall i :: 0 <= i < |merged| ==> RuralOf(merged[i]) == None || RuralOf(merged[i]) == Some(0.0) || RuralOf(merged[i]) == Some(1.0);
    }
  }

  /** Two masks that agree everywhere count alike. */
  lemma CountSame(rows: seq<Tract>, p: Tract -> bool, q: Tract -> bool)
    requires forall t :: p(t) == q(t)
    ensures Count(rows, p) == Count(rows, q)
  {
    CountMono(rows, p, q);
    CountMono(rows, q, p);
  }

  /** Five rows, the four indicators in order and then Rural, each with N + Missing equal to the number of rows. */
  lemma Table1RowsSpec(merged: seq<Tract>)
    ensures var r := Table1Rows(merged);
      |r| == 5 &&
      (forall i :: 0 <= i < 4 ==> r[i] == IndicatorRow(merged, Indicators[i])) &&
      r[4] == RuralRow(merged) &&
      forall i :: 0 <= i < 5 ==> r[i].n + r[i].missing == |merged|
  {
    var r := Table1Rows(merged);
    forall i | 0 <= i < 4
      ensures r[i].n + r[i].missing == |merged|
    {
      IndicatorRowSpec(merged, Indicators[i]);
    }
    RuralRowSpec(merged);
  }

  // ---------------------------------------------------------------- Table 3

  /** One row of the state table; Mean_Resilience is a floating-point mean and is left out. */
  datatype StateRow = StateRow(abbr: string, resilient: nat, total: nat, pct: real)

  /** The row of one StateAbbr group. */
  function RowOf(g: Group<string>): StateRow
  {
    StateRow(g.key, g.hits, g.count, if g.count == 0 then 0.0 else g.hits as real / g.count as real * 100.0)
  }

  /** The StateAbbr groups of the LILA tracts, with their resilient counts (score above the 0.9 quantile of all rows). */
  function StateGroups(merged: seq<Tract>, q90: real): seq<Group<string>>
  {
    GroupBy(Lila(merged), InvestigateAnomalies.AbbrKey, ScoreAboveMask(q90))
  }

  /** Table 3: the 15 states with the most resilient LILA tracts, most first. */
  function StateTable(merged: seq<Tract>, q90: real): seq<StateRow>
  {
    var top := Largest(StateGroups(merged, q90), 15, GroupHits);
    seq(|top|, i requires 0 <= i < |top| => RowOf(top[i]))
  }

  /** The resilient and total counts of a state's LILA tracts. */
  function ResilientIn(merged: seq<Tract>, q90: real, abbr: string): nat
  {
    KeyHits(Lila(merged), InvestigateAnomalies.AbbrKey, ScoreAboveMask(q90), abbr)
  }

  function TotalIn(merged: seq<Tract>, q90: real, abbr: string): nat
  {
    KeyCount(Lila(merged), InvestigateAnomalies.AbbrKey, abbr)
  }

  /** A row of the state table is a state with a LILA tract, its counts and their percentage. */
  ghost predicate RowFits(row: StateRow, merged: seq<Tract>, q90: real)
  {
    (exists t :: t in merged && IsLila(t) && t.stateAbbr == row.abbr) &&
    row.resilient == ResilientIn(merged, q90, row.abbr) &&
    row.total == TotalIn(merged, q90, row.abbr) &&
    row.resilient <= row.total && 1 <= row.total &&
    row.pct == row.resilient as real / row.total as real * 100.0 &&
    0.0 <= row.pct <= 100.0
  }

  /**
   * At most 15 rows, in non-increasing order of resilient tracts, each a distinct state that
   * has a LILA tract, with its resilient and total LILA counts (resilient <= total, total >= 1)
   * and their percentage, between 0 and 100; and no state left out has more resilient LILA
   * tracts than a state kept.
   */
  lemma StateTableSpec(merged: seq<Tract>, q90: real)
    ensures var r := StateTable(merged, q90);
      |r| <= 15 &&
      (forall i, j :: 0 <= i < j < |r| ==> r[i].resilient >= r[j].resilient) &&
      (forall i, j :: 0 <= i < j < |r| ==> r[i].abbr != r[j].abbr) &&
      (forall i :: 0 <= i < |r| ==> RowFits(r[i], merged, q90)) &&
      (forall t :: t in merged && IsLila(t) && (forall i :: 0 <= i < |r| ==> r[i].abbr != t.stateAbbr) ==>
         forall i :: 0 <= i < |r| ==> r[i].resilient >= ResilientIn(merged, q90, t.stateAbbr))
  {
    StateTableOrder(merged, q90);
    StateTableRows(merged, q90);
    StateTableComplete(merged, q90);
  }

  /** The rows are in non-increasing order of resilient tracts, one per state. */
  lemma StateTableOrder(merged: seq<Tract>, q90: real)
    ensures var r := StateTable(merged, q90);
      |r| <= 15 &&
      (forall i, j :: 0 <= i < j < |r| ==> r[i].resilient >= r[j].resilient) &&
      (forall i, j :: 0 <= i < j < |r| ==> r[i].abbr != r[j].abbr)
  {
    TopByHits(StateGroups(merged, q90), 15);
  }

  /** The n groups with most hits, from groups with distinct keys: sorted by hits, distinct keys. */
  lemma TopByHits(all: seq<Group<string>>, n: nat)
    requires forall i, j :: 0 <= i < j < |all| ==> all[i].key != all[j].key
    ensures var top := Largest(all, n, GroupHits);
      |top| <= n &&
      (forall i, j :: 0 <= i < j < |top| ==> top[i].hits >= top[j].hits) &&
      (forall i, j :: 0 <= i < j < |top| ==> top[i].key != top[j].key)
  {
    var top := Largest(all, n, GroupHits);
    forall i, j | 0 <= i < j < |top|
      ensures top[i].hits >= top[j].hits
    {
      assert GroupHits(top[i]) >= GroupHits(top[j]);
    }
    TopKeysDistinct(all, top);
  }

  /** Groups drawn without repetition from groups with distinct keys have distinct keys. */
  lemma TopKeysDistinct(all: seq<Group<string>>, top: seq<Group<string>>)
    requires forall i, j :: 0 <= i < j < |all| ==> all[i].key != all[j].key
    requires multiset(top) <= multiset(all)
    ensures forall i, j :: 0 <= i < j < |top| ==> top[i].key != top[j].key
  {
    forall i, j | 0 <= i < j < |top|
      ensures top[i].key != top[j].key
    {
      assert top[i] in multiset(all) && top[j] in multiset(all);
      var a :| 0 <= a < |all| && all[a] == top[i];
      var b :| 0 <= b < |all| && all[b] == top[j];
      assert forall x, y :: 0 <= x < y < |all| ==> all[x] != all[y];
      DistinctMultiset(all, top, i, j);
    }
  }

  /** Each row fits its state. */
  lemma StateTableRows(merged: seq<Tract>, q90: real)
    ensures var r := StateTable(merged, q90);
      forall i :: 0 <= i < |r| ==> RowFits(r[i], merged, q90)
  {
    var all := StateGroups(merged, q90);
    var top := Largest(all, 15, GroupHits);
    var r := StateTable(merged, q90);
    forall i | 0 <= i < |r|
      ensures RowFits(r[i], merged, q90)
    {
      assert r[i] == RowOf(top[i]);
      assert top[i] in multiset(all);
      GroupRowFits(merged, q90, top[i]);
    }
  }

  /** The row of a StateAbbr group fits its state. */
  lemma GroupRowFits(merged: seq<Tract>, q90: real, g: Group<string>)
    requires g in StateGroups(merged, q90)
    ensures RowFits(RowOf(g), merged, q90)
  {
    var lila := Lila(merged);
    var all := StateGroups(merged, q90);
    var a :| 0 <= a < |all| && all[a] == g;
    assert HasKey(lila, InvestigateAnomalies.AbbrKey, g.key);
    var k :| 0 <= k < |lila| && InvestigateAnomalies.AbbrKey(lila[k]) == Some(g.key);
    LilaSpec(merged);
    assert lila[k] in lila;
    PercentOfWhole(g.hits as real, g.count as real);
  }

  /** No state with a LILA tract that is left out has more resilient LILA tracts than one kept. */
  lemma StateTableComplete(merged: seq<Tract>, q90: real)
    ensures var r := StateTable(merged, q90);
      forall t :: t in merged && IsLila(t) && (forall i :: 0 <= i < |r| ==> r[i].abbr != t.stateAbbr) ==>
        forall i :: 0 <= i < |r| ==> r[i].resilient >= ResilientIn(merged, q90, t.stateAbbr)
  {
    var r := StateTable(merged, q90);
    LilaSpec(merged);
    forall t | t in merged && IsLila(t) && (forall i :: 0 <= i < |r| ==> r[i].abbr != t.stateAbbr)
      ensures forall i :: 0 <= i < |r| ==> r[i].resilient >= ResilientIn(merged, q90, t.stateAbbr)
    {
      assert t in Lila(merged);
      LeftOutState(merged, q90, t);
    }
  }

  /** The step of StateTableComplete for one LILA tract whose state is left out. */
  lemma LeftOutState(merged: seq<Tract>, q90: real, t: Tract)
    requires t in Lila(merged)
    requires forall i :: 0 <= i < |StateTable(merged, q90)| ==> StateTable(merged, q90)[i].abbr != t.stateAbbr
    ensures forall i :: 0 <= i < |StateTable(merged, q90)| ==>
              StateTable(merged, q90)[i].resilient >= ResilientIn(merged, q90, t.stateAbbr)
  {
    var lila := Lila(merged);
    var all := StateGroups(merged, q90);
    var top := Largest(all, 15, GroupHits);
    var k :| 0 <= k < |lila| && lila[k] == t;
    assert InvestigateAnomalies.AbbrKey(lila[k]) == Some(t.stateAbbr);
    GroupOfKey(lila, InvestigateAnomalies.AbbrKey, ScoreAboveMask(q90), t.stateAbbr);
    var a :| 0 <= a < |all| && all[a].key == t.stateAbbr;
    assert all[a].hits == ResilientIn(merged, q90, t.stateAbbr);
    StateTableRowOf(merged, q90);
    LeftOutGroup(all, 15, a);
  }

  /** Row i of the state table is the row of the i-th largest group. */
  lemma StateTableRowOf(merged: seq<Tract>, q90: real)
    ensures var top := Largest(StateGroups(merged, q90), 15, GroupHits);
      |StateTable(merged, q90)| == |top| &&
      forall i :: 0 <= i < |top| ==>
        StateTable(merged, q90)[i].abbr == top[i].key && StateTable(merged, q90)[i].resilient == top[i].hits
  {
  }

  /** A group whose key none of the n largest by hits carries has no more hits than any of them. */
  lemma LeftOutGroup(all: seq<Group<string>>, n: nat, a: nat)
    requires a < |all|
    requires forall i :: 0 <= i < |Largest(all, n, GroupHits)| ==> Largest(all, n, GroupHits)[i].key != all[a].key
    ensures forall i :: 0 <= i < |Largest(all, n, GroupHits)| ==> Largest(all, n, GroupHits)[i].hits >= all[a].hits
  {
    var top := Largest(all, n, GroupHits);
    assert all[a] in multiset(all) - multiset(top);
    forall i | 0 <= i < |top|
      ensures top[i].hits >= all[a].hits
    {
      assert top[i] in top;
      assert GroupHits(top[i]) >= GroupHits(all[a]);
    }
  }
}
