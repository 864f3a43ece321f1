// The least resilient LILA tracts: the inclusive bottom-decile selection and its ascending
// order, the equally large most-resilient comparison set, the Difference column, the state
// and county counts, and the shares of rural, high-poverty and southern tracts.

module AnalyzeLeastResilient {
  import opened Wrappers
  import opened Text
  import opened Seqs
  import opened Tracts
  import InvestigateAnomalies
  import ExtractAllResilient

  // ---------------------------------------------------------------- selection and order

  /** The mask `resilience_score <= threshold_10`; inclusive, and false on a missing score. */
  function AtMostMask(q: real): Tract -> bool
  {
    (t: Tract) => AtMost(t.score, q)
  }

  /** The score negated: the descending order of this key is the ascending order of the score. */
  function NegScore(t: Tract): real
  {
    -ScoreKey(t)
  }

  /** least_resilient: the LILA rows scoring at or below q10 (the 0.1 quantile of the LILA scores), lowest score first. */
  function LeastResilient(rows: seq<Tract>, q10: real): seq<Tract>
  {
    SortDesc(Filter(Lila(rows), AtMostMask(q10)), NegScore)
  }

  /**
   * The list holds exactly the LILA rows whose score is present and at most q10, each as
   * often as in the input, in non-decreasing score order (worst first).
   */
  lemma LeastResilientSpec(rows: seq<Tract>, q10: real)
    ensures var out := LeastResilient(rows, q10);
      (forall t :: t in out <==> t in rows && IsLila(t) && AtMost(t.score, q10)) &&
      multiset(out) == multiset(Filter(Lila(rows), AtMostMask(q10))) &&
      |out| == Count(Lila(rows), AtMostMask(q10)) &&
      (forall i :: 0 <= i < |out| ==> out[i].score.Some? && out[i].score.value <= q10) &&
      (forall i, j :: 0 <= i < j < |out| ==> out[i].score.value <= out[j].score.value)
  {
    var sel := Filter(Lila(rows), AtMostMask(q10));
    var out := LeastResilient(rows, q10);
    LilaSpec(rows);
    FilterSpec(Lila(rows), AtMostMask(q10));
    MultisetMembers(out, sel);
    forall i | 0 <= i < |out|
      ensures out[i].score.Some? && out[i].score.value <= q10
    {
      assert out[i] in sel;
    }
    forall i, j | 0 <= i < j < |out|
      ensures out[i].score.value <= out[j].score.value
    {
      assert NegScore(out[i]) >= NegScore(out[j]);
    }
  }

  /**
   * The strict vulnerable split of the anomaly investigation is contained in this inclusive
   * one, and a LILA tract scoring exactly q10 is in this list but not in that split.
   */
  lemma InclusiveContainsStrict(rows: seq<Tract>, q10: real)
    ensures forall t :: t in InvestigateAnomalies.VulnerableLila(rows, q10) ==> t in LeastResilient(rows, q10)
    ensures |InvestigateAnomalies.VulnerableLila(rows, q10)| <= |LeastResilient(rows, q10)|
    ensures forall t :: t in rows && IsLila(t) && t.score == Some(q10) ==>
              t in LeastResilient(rows, q10) && t !in InvestigateAnomalies.VulnerableLila(rows, q10)
  {
    LeastResilientSpec(rows, q10);
    InvestigateAnomalies.SplitSpec(rows, q10, q10);
    CountMono(Lila(rows), ScoreBelowMask(q10), AtMostMask(q10));
  }

  // ---------------------------------------------------------------- comparison with the most resilient

  /** A row `nlargest` can rank: its score is present (nlargest drops missing values). */
  predicate Scored(t: Tract)
  {
    t.score.Some?
  }

  /** most_resilient: the n LILA rows with the highest scores, highest first. */
  function MostResilient(lila: seq<Tract>, n: nat): seq<Tract>
  {
    Largest(Filter(lila, Scored), n, ScoreKey)
  }

  /**
   * Taking as many of the highest-scoring LILA rows as there are least resilient rows gives
   * exactly that many rows, all of them scored LILA rows, highest first, and no scored LILA
   * row left out scores higher than one taken.
   */
  lemma MostResilientSpec(rows: seq<Tract>, q10: real)
    ensures var n := |LeastResilient(rows, q10)|;
      var most := MostResilient(Lila(rows), n);
      |most| == n &&
      (forall t :: t in most ==> t in rows && IsLila(t) && t.score.Some?) &&
      (forall i, j :: 0 <= i < j < |most| ==> most[i].score.value >= most[j].score.value) &&
      (forall x, y :: x in most && y in multiset(Filter(Lila(rows), Scored)) - multiset(most) ==>
         ScoreKey(x) >= ScoreKey(y))
  {
    var lila := Lila(rows);
    var scored := Filter(lila, Scored);
    var n := |LeastResilient(rows, q10)|;
    var most := MostResilient(lila, n);
    LeastResilientSpec(rows, q10);
    CountMono(lila, AtMostMask(q10), Scored);
    LilaSpec(rows);
    FilterSpec(lila, Scored);
    forall t | t in most
      ensures t in rows && IsLila(t) && t.score.Some?
    {
      assert t in multiset(most);
      assert t in scored;
    }
    forall i, j | 0 <= i < j < |most|
      ensures most[i].score.value >= most[j].score.value
    {
      assert most[i] in most && most[j] in most;
      assert ScoreKey(most[i]) >= ScoreKey(most[j]);
    }
  }

  /** The metrics of the comparison table, in order. */
  const MetricNames: seq<string> := ["Mean Resilience Score", "Mean Health Burden", "Mean Poverty Rate",
                                     "Median Income", "Percent Urban", "Mean Population"]

  /** One row of the comparison table. */
  datatype Metric = Metric(name: string, least: Num, most: Num, difference: Num)

  /** The comparison table from the six statistics of each group (means and medians are computed elsewhere). */
  function Comparison(least: seq<Num>, most: seq<Num>): (r: seq<Metric>)
    requires |least| == |MetricNames| && |most| == |MetricNames|
  {
    seq(|MetricNames|, i requires 0 <= i < |MetricNames| =>
      Metric(MetricNames[i], least[i], most[i], Sub(most[i], least[i])))
  }

  /**
   * One row per metric, in order; Difference is Most Resilient minus Least Resilient, so
   * adding it to the least resilient value gives the most resilient one, and it is missing
   * when either value is.
   */
  lemma ComparisonSpec(least: seq<Num>, most: seq<Num>)
    requires |least| == |MetricNames| && |most| == |MetricNames|
    ensures var r := Comparison(least, most);
      |r| == |MetricNames| &&
      forall i :: 0 <= i < |r| ==>
        r[i].name == MetricNames[i] && r[i].least == least[i] && r[i].most == most[i] &&
        (r[i].difference.Some? <==> least[i].Some? && most[i].Some?) &&
        (r[i].difference.Some? ==> least[i].value + r[i].difference.value == most[i].value)
  {
  }

  /** `(Urban == 1)`: false on a missing flag. */
  predicate UrbanFlag(t: Tract)
  {
    Is(t.urban, 1.0)
  }

  /** The Percent Urban row: both percentages lie in [0, 100], so its Difference lies in [-100, 100]. */
  lemma PercentUrbanDifference(leastRows: seq<Tract>, mostRows: seq<Tract>)
    requires leastRows != [] && mostRows != []
    ensures var d := Sub(Percent(mostRows, UrbanFlag), Percent(leastRows, UrbanFlag));
      d.Some? && -100.0 <= d.value <= 100.0
  {
    PercentBounds(leastRows, UrbanFlag);
    PercentBounds(mostRows, UrbanFlag);
  }

  // ---------------------------------------------------------------- state and county counts

  /** The groupby key State; a missing State is in no group. */
  function StateName(t: Tract): Option<string>
  {
    t.state
  }

  /** `groupby(key).size().sort_values(ascending=False).head(n)`. */
  function TopGroups<K(!new,==)>(rows: seq<Tract>, key: Tract -> Option<K>, n: nat): seq<Group<K>>
  {
    Largest(GroupBy(rows, key, ExtractAllResilient.AnyRow), n, GroupCount)
  }

  /**
   * At most n groups, largest first; each is a key present in the rows with its row count;
   * no group left out is larger than one kept.
   */
  lemma TopGroupsSpec<K(!new)>(rows: seq<Tract>, key: Tract -> Option<K>, n: nat)
    ensures var all := GroupBy(rows, key, ExtractAllResilient.AnyRow);
      var top := TopGroups(rows, key, n);
      |top| <= n &&
      (forall i, j :: 0 <= i < j < |top| ==> top[i].count >= top[j].count) &&
      (forall g :: g in top ==>
         g.count == KeyCount(rows, key, g.key) && g.count >= 1 && HasKey(rows, key, g.key)) &&
      (forall x, y :: x in top && y in multiset(all) - multiset(top) ==> x.count >= y.count)
  {
    var all := GroupBy(rows, key, ExtractAllResilient.AnyRow);
    var top := TopGroups(rows, key, n);
    LargestGroups(all, n);
    forall g | g in top
      ensures g.count == KeyCount(rows, key, g.key) && g.count >= 1 && HasKey(rows, key, g.key)
    {
      GroupMember(rows, key, g);
    }
  }

  /** A group of the groupby is a present key with its row count. */
  lemma GroupMember<K(!new)>(rows: seq<Tract>, key: Tract -> Option<K>, g: Group<K>)
    requires g in GroupBy(rows, key, ExtractAllResilient.AnyRow)
    ensures g.count == KeyCount(rows, key, g.key) && g.count >= 1 && HasKey(rows, key, g.key)
  {
    var all := GroupBy(rows, key, ExtractAllResilient.AnyRow);
    var i :| 0 <= i < |all| && all[i] == g;
  }

  /** The n largest groups by row count: sorted, drawn from the groups, none left out larger. */
  lemma LargestGroups<K(!new)>(all: seq<Group<K>>, n: nat)
    ensures var top := Largest(all, n, GroupCount);
      |top| <= n &&
      (forall i, j :: 0 <= i < j < |top| ==> top[i].count >= top[j].count) &&
      (forall g :: g in top ==> g in all) &&
      (forall x, y :: x in top && y in multiset(all) - multiset(top) ==> x.count >= y.count)
  {
    var top := Largest(all, n, GroupCount);
    forall i, j | 0 <= i < j < |top|
      ensures top[i].count >= top[j].count
    {
      assert GroupCount(top[i]) >= GroupCount(top[j]);
    }
    forall g | g in top
      ensures g in all
    {
      assert g in multiset(top);
    }
    forall x, y | x in top && y in multiset(all) - multiset(top)
      ensures x.count >= y.count
    {
      assert GroupCount(x) >= GroupCount(y);
    }
  }

  /** state_counts: the 15 states with the most least resilient tracts. */
  function StateCounts(least: seq<Tract>): seq<Group<string>>
  {
    TopGroups(least, StateName, 15)
  }

  /** county_counts: the 15 (County, State) pairs with the most least resilient tracts. */
  function CountyCounts(least: seq<Tract>): seq<Group<(string, string)>>
  {
    TopGroups(least, ExtractAllResilient.CountyKey, 15)
  }

  // ---------------------------------------------------------------- shares

  /** `(Urban == 0)`. */
  predicate RuralFlag(t: Tract)
  {
    Is(t.urban, 0.0)
  }

  /** `(PovertyRate > 30)`. */
  predicate HighPoverty(t: Tract)
  {
    Above(t.poverty, 30.0)
  }

  /** The states counted as southern. */
  const SouthStates: seq<string> := ["Texas", "Louisiana", "Mississippi", "Alabama", "Georgia",
                                     "Florida", "South Carolina", "North Carolina", "Tennessee",
                                     "Kentucky", "West Virginia", "Virginia", "Arkansas", "Oklahoma"]

  /** `State.isin(south_states)`: false on a missing State. */
  predicate InSouth(t: Tract)
  {
    t.state.Some? && t.state.value in SouthStates
  }

  /** rural_pct: missing (NaN) on an empty list. */
  function RuralPct(least: seq<Tract>): Num
  {
    Percent(least, RuralFlag)
  }

  /** high_poverty: missing (NaN) on an empty list. */
  function HighPovertyPct(least: seq<Tract>): Num
  {
    Percent(least, HighPoverty)
  }

  /** south_pct = len(south_tracts) / len(least_resilient) * 100: a Python division, which raises on an empty list. */
  function SouthPct(least: seq<Tract>): (r: Result<real, string>)
  {
    if least == [] then Failure("ZeroDivisionError")
    else Success(Count(least, InSouth) as real / |least| as real * 100.0)
  }

  /** The southern share fails exactly on an empty list and otherwise is the share of southern rows, between 0 and 100. */
  lemma SouthPctSpec(least: seq<Tract>)
    ensures SouthPct(least).Failure? <==> least == []
    ensures SouthPct(least).Success? ==>
              Some(SouthPct(least).value) == Percent(least, InSouth) && 0.0 <= SouthPct(least).value <= 100.0
  {
    PercentBounds(least, InSouth);
  }

  /**
   * The rural share and the Urban == 1 share add up to at most 100, and to exactly 100 when
   * every Urban flag is 0 or 1; the printed `100 - rural_pct` is the urban share only then.
   */
  lemma RuralUrbanShares(least: seq<Tract>)
    requires least != []
    ensures RuralPct(least).value + Percent(least, UrbanFlag).value <= 100.0
    ensures (forall i :: 0 <= i < |least| ==> least[i].urban == Some(0.0) || least[i].urban == Some(1.0)) ==>
              RuralPct(least).value + Percent(least, UrbanFlag).value == 100.0
  {
    CountDisjoint(least, RuralFlag, UrbanFlag);
    SharesAdd(Count(least, RuralFlag), Count(least, UrbanFlag), |least|);
    if forall i :: 0 <= i < |least| ==> least[i].urban == Some(0.0) || least[i].urban == Some(1.0) {
      RuralOrUrban(least);
    }
  }

  /** Two shares of disjoint parts of one whole add up to the share of their union. */
  lemma SharesAdd(a: nat, b: nat, n: nat)
    requires a + b <= n && n > 0
    ensures (a as real) / (n as real) * 100.0 + (b as real) / (n as real) * 100.0 <= 100.0
    ensures a + b == n ==> (a as real) / (n as real) * 100.0 + (b as real) / (n as real) * 100.0 == 100.0
  {
    var nr := n as real;
    SumOfQuotients(a as real, b as real, nr);
    QuotientAtMostOne((a + b) as real, nr);
  }

  /** Quotients by one positive denominator add up to the quotient of the sum. */
  lemma SumOfQuotients(a: real, b: real, n: real)
    requires n > 0.0
    ensures a / n + b / n == (a + b) / n
  {
  }

  /** A part of a positive whole is at most the whole, and exactly the whole when equal to it. */
  lemma QuotientAtMostOne(c: real, n: real)
    requires 0.0 <= c <= n && n > 0.0
    ensures c / n <= 1.0
    ensures c == n ==> c / n == 1.0
  {
  }

  /** When every flag is 0 or 1, each row is rural or urban and not both. */
  lemma {:induction false} RuralOrUrban(rows: seq<Tract>)
    requires forall i :: 0 <= i < |rows| ==> rows[i].urban == Some(0.0) || rows[i].urban == Some(1.0)
    ensures Count(rows, RuralFlag) + Count(rows, UrbanFlag) == |rows|
  {
    if rows != [] {
      assert forall i :: 1 <= i < |rows| ==> rows[1..][i - 1] == rows[i];
      RuralOrUrban(rows[1..]);
    }
  }
}
