// The selection rules of the anomaly investigation: the LILA restriction, the anomaly
// filters, the strict resilient/vulnerable split, the twin-tract search, the largest
// difference between state means, and the "clean" exclusion filter.

module InvestigateAnomalies {
  import opened Wrappers
  import opened Text
  import opened Seqs
  import opened Tracts

  // ---------------------------------------------------------------- anomaly filters

  /** PovertyRate == 100. */
  predicate FullPoverty(t: Tract)
  {
    Is(t.poverty, 100.0)
  }

  /** PovertyRate == 0. */
  predicate NoPoverty(t: Tract)
  {
    Is(t.poverty, 0.0)
  }

  /** Pop2010 < 500. */
  predicate TinyPopulation(t: Tract)
  {
    Below(t.pop, 500.0)
  }

  /** PCTGQTRS > 20. */
  predicate HighGroupQuarters(t: Tract)
  {
    Above(t.gq, 20.0)
  }

  /**
   * `num / den * 100 > limit` in floating point, for a finite limit: a zero denominator
   * gives +inf (above any limit) for a positive numerator, NaN for a zero one and -inf for
   * a negative one; a missing operand gives NaN.
   */
  predicate PctAbove(num: Num, den: Num, limit: real)
  {
    num.Some? && den.Some? &&
    if den.value == 0.0 then num.value > 0.0 else num.value / den.value * 100.0 > limit
  }

  /** Complete abandonment: PovertyRate > 40, lahunv10 / Pop2010 * 100 > 20 and TractSNAP / Pop2010 * 100 > 30. */
  predicate Abandoned(t: Tract)
  {
    Above(t.poverty, 40.0) && PctAbove(t.noVehicleFar, t.pop, 20.0) && PctAbove(t.snap, t.pop, 30.0)
  }

  /** On a positive population the percentage test is a comparison of counts; on an empty tract any positive count passes. */
  lemma PctAboveSpec(num: real, den: real, limit: real)
    ensures den > 0.0 ==> (PctAbove(Some(num), Some(den), limit) <==> num * 100.0 > limit * den)
    ensures den == 0.0 ==> (PctAbove(Some(num), Some(den), limit) <==> num > 0.0)
  {
    if den > 0.0 {
      var ratio := num / den;
      assert num == ratio * den;
      assert ratio * 100.0 > limit <==> ratio * den * 100.0 > limit * den;
    }
  }

  /** Which LILA tracts are abandoned, stated on counts instead of ratios. */
  lemma AbandonedSpec(t: Tract)
    requires t.pop.Some? && t.noVehicleFar.Some? && t.snap.Some?
    ensures t.pop.value > 0.0 ==>
              (Abandoned(t) <==> Above(t.poverty, 40.0) &&
                                 t.noVehicleFar.value * 100.0 > 20.0 * t.pop.value &&
                                 t.snap.value * 100.0 > 30.0 * t.pop.value)
    ensures t.pop.value == 0.0 ==>
              (Abandoned(t) <==> Above(t.poverty, 40.0) && t.noVehicleFar.value > 0.0 && t.snap.value > 0.0)
  {
    PctAboveSpec(t.noVehicleFar.value, t.pop.value, 20.0);
    PctAboveSpec(t.snap.value, t.pop.value, 30.0);
  }

  /** The six anomaly selections, each over the LILA rows. */
  datatype Anomalies = Anomalies(
    fullPoverty: seq<Tract>,
    noPoverty: seq<Tract>,
    tiny: seq<Tract>,
    highGq: seq<Tract>,
    abandoned: seq<Tract>,
    clean: seq<Tract>
  )

  /** Every analysed set is a subset of the LILA rows with its own mask applied. */
  function Investigate(rows: seq<Tract>): (a: Anomalies)
  {
    var lila := Lila(rows);
    Anomalies(Filter(lila, FullPoverty), Filter(lila, NoPoverty), Filter(lila, TinyPopulation),
              Filter(lila, HighGroupQuarters), Filter(lila, Abandoned), Filter(lila, Clean))
  }

  // ---------------------------------------------------------------- clean filter

  /** The clean mask: PCTGQTRS < 10, Pop2010 > 1000, PovertyRate < 90 and PovertyRate > 5, all strict. */
  predicate Clean(t: Tract)
  {
    Below(t.gq, 10.0) && Above(t.pop, 1000.0) && Below(t.poverty, 90.0) && Above(t.poverty, 5.0)
  }

  /** The mask of rows the clean filter removes. */
  predicate Removed(t: Tract)
  {
    !Clean(t)
  }

  /** removed_count = |all_lila| - |clean_lila|. */
  function RemovedCount(rows: seq<Tract>): (n: int)
  {
    |Lila(rows)| - |Investigate(rows).clean|
  }

  /**
   * The anomaly sets hold exactly the LILA rows that meet their masks; the clean set is
   * exactly those LILA rows meeting all four bounds; removed_count is the number of LILA
   * rows failing the clean mask, so it is never negative.
   */
  lemma InvestigateSpec(rows: seq<Tract>)
    ensures var a := Investigate(rows);
      (forall t :: t in a.fullPoverty <==> t in rows && IsLila(t) && FullPoverty(t)) &&
      (forall t :: t in a.noPoverty <==> t in rows && IsLila(t) && NoPoverty(t)) &&
      (forall t :: t in a.tiny <==> t in rows && IsLila(t) && TinyPopulation(t)) &&
      (forall t :: t in a.highGq <==> t in rows && IsLila(t) && HighGroupQuarters(t)) &&
      (forall t :: t in a.abandoned <==> t in rows && IsLila(t) && Abandoned(t)) &&
      (forall t :: t in a.clean <==> t in rows && IsLila(t) && Clean(t))
    ensures RemovedCount(rows) == Count(Lila(rows), Removed) >= 0
  {
    var lila := Lila(rows);
    LilaSpec(rows);
    FilterSpec(lila, FullPoverty);
    FilterSpec(lila, NoPoverty);
    FilterSpec(lila, TinyPopulation);
    FilterSpec(lila, HighGroupQuarters);
    FilterSpec(lila, Abandoned);
    FilterSpec(lila, Clean);
    CountComplement(lila, Clean, Removed);
  }

  /** The clean set shares no row with the 100%/0% poverty, tiny-population and high-group-quarters sets: those are all removed. */
  lemma CleanExcludesAnomalies(rows: seq<Tract>)
    ensures var a := Investigate(rows);
      forall t :: t in a.clean ==> t !in a.fullPoverty && t !in a.noPoverty && t !in a.tiny && t !in a.highGq
  {
    InvestigateSpec(rows);
  }

  // ---------------------------------------------------------------- resilient / vulnerable split

  /** resilient_lila: LILA rows scoring strictly above q90, the 0.9 quantile of the LILA scores. */
  function ResilientLila(rows: seq<Tract>, q90: real): seq<Tract>
  {
    ScoreAbove(Lila(rows), q90)
  }

  /** vulnerable_lila: LILA rows scoring strictly below q10, the 0.1 quantile of the LILA scores. */
  function VulnerableLila(rows: seq<Tract>, q10: real): seq<Tract>
  {
    ScoreBelow(Lila(rows), q10)
  }

  /**
   * Both sets consist of LILA rows. When q10 <= q90 every resilient score is strictly above
   * every vulnerable score, so the two sets are disjoint.
   */
  lemma SplitSpec(rows: seq<Tract>, q10: real, q90: real)
    ensures forall t :: t in ResilientLila(rows, q90) <==> t in rows && IsLila(t) && Above(t.score, q90)
    ensures forall t :: t in VulnerableLila(rows, q10) <==> t in rows && IsLila(t) && Below(t.score, q10)
    ensures q10 <= q90 ==>
              forall r, v :: r in ResilientLila(rows, q90) && v in VulnerableLila(rows, q10) ==>
                r.score.value > v.score.value && r != v
  {
    LilaSpec(rows);
    ScoreSplitSpec(Lila(rows), q90);
    ScoreSplitSpec(Lila(rows), q10);
  }

  // ---------------------------------------------------------------- twin tracts

  /** v is a twin candidate for t: poverty within 5 points, population within 500, the same Urban flag; all strict, all false on a missing value. */
  predicate Candidate(t: Tract, v: Tract)
  {
    Near(v.poverty, t.poverty, 5.0) && Near(v.pop, t.pop, 500.0) && Same(v.urban, t.urban)
  }

  /** `matches.iloc[0]`: the position of the first candidate for t in vs, if any. */
  function FirstCandidate(t: Tract, vs: seq<Tract>): (r: Option<nat>)
    ensures r.Some? ==> r.value < |vs| && Candidate(t, vs[r.value]) &&
                        forall k :: 0 <= k < r.value ==> !Candidate(t, vs[k])
    ensures r.None? ==> forall k :: 0 <= k < |vs| ==> !Candidate(t, vs[k])
  {
    if vs == [] then None
    else if Candidate(t, vs[0]) then Some(0)
    else
      var rest := FirstCandidate(t, vs[1..]);
      assert forall k :: 1 <= k < |vs| ==> vs[k] == vs[1..][k - 1];
      if rest.Some? then Some(rest.value + 1) else None
  }

  /** One twins row. */
  datatype Twin = Twin(
    resilientTract: string,
    resilientState: string,
    vulnerableTract: string,
    vulnerableState: string,
    poverty: Num,
    population: Num,
    diff: Num          // resilient score minus matched score
  )

  /** The twins row for resilient tract t matched with v. */
  function MakeTwin(t: Tract, v: Tract): (w: Twin)
    ensures w.resilientTract == t.id && w.vulnerableTract == v.id
    ensures t.score.Some? && v.score.Some? ==> w.diff == Some(t.score.value - v.score.value)
  {
    Twin(t.id, t.stateAbbr, v.id, v.stateAbbr, t.poverty, t.pop, Sub(t.score, v.score))
  }

  /** The twins list: for each resilient tract in order, its first candidate among vs, if it has one. */
  function Twins(rs: seq<Tract>, vs: seq<Tract>): (w: seq<Twin>)
  {
    if rs == [] then []
    else
      var prev := Twins(rs[..|rs| - 1], vs);
      var t := rs[|rs| - 1];
      match FirstCandidate(t, vs)
      case Some(k) => prev + [MakeTwin(t, vs[k])]
      case None => prev
  }

  /** The mask of resilient tracts that have a candidate among vs. */
  function HasTwin(vs: seq<Tract>): Tract -> bool
  {
    (t: Tract) => FirstCandidate(t, vs).Some?
  }

  /** A twins row comes from resilient tract i and its first candidate. */
  predicate TwinOf(w: Twin, rs: seq<Tract>, vs: seq<Tract>)
  {
    exists i :: 0 <= i < |rs| && FirstCandidate(rs[i], vs).Some? &&
                w == MakeTwin(rs[i], vs[FirstCandidate(rs[i], vs).value])
  }

  /** Twins of a concatenation are the twins of each part, in order: the list follows the resilient order. */
  lemma {:induction false} TwinsAppend(a: seq<Tract>, b: seq<Tract>, vs: seq<Tract>)
    ensures Twins(a + b, vs) == Twins(a, vs) + Twins(b, vs)
    decreases |b|
  {
    if b == [] {
      assert a + b == a;
    } else {
      var b' := b[..|b| - 1];
      assert (a + b)[..|a + b| - 1] == a + b';
      assert (a + b)[|a + b| - 1] == b[|b| - 1];
      TwinsAppend(a, b', vs);
    }
  }

  /**
   * At most one twin per resilient tract: exactly as many twins as resilient tracts with a
   * candidate, hence at most |rs|; each twin is a resilient tract paired with its first candidate.
   */
  lemma {:induction false} TwinsSpec(rs: seq<Tract>, vs: seq<Tract>)
    ensures |Twins(rs, vs)| == Count(rs, HasTwin(vs)) <= |rs|
    ensures forall w :: w in Twins(rs, vs) ==> TwinOf(w, rs, vs)
  {
    if rs != [] {
      var pre := rs[..|rs| - 1];
      var t := rs[|rs| - 1];
      TwinsSpec(pre, vs);
      assert rs == pre + [t];
      TwinsCountStep(pre, t, vs);
      TwinsMemberStep(pre, t, vs);
    }
  }

  /** Appending one resilient tract adds a twin exactly when it has a candidate. */
  lemma TwinsCountStep(pre: seq<Tract>, t: Tract, vs: seq<Tract>)
    requires |Twins(pre, vs)| == Count(pre, HasTwin(vs))
    ensures |Twins(pre + [t], vs)| == Count(pre + [t], HasTwin(vs))
  {
    assert (pre + [t])[..|pre + [t]| - 1] == pre;
    FilterAppend(pre, [t], HasTwin(vs));
    assert Filter([t], HasTwin(vs)) == if FirstCandidate(t, vs).Some? then [t] else [];
  }

  /** Appending one resilient tract keeps every twin a twin of some tract. */
  lemma TwinsMemberStep(pre: seq<Tract>, t: Tract, vs: seq<Tract>)
    requires forall w :: w in Twins(pre, vs) ==> TwinOf(w, pre, vs)
    ensures forall w :: w in Twins(pre + [t], vs) ==> TwinOf(w, pre + [t], vs)
  {
    var rs := pre + [t];
    assert rs[..|rs| - 1] == pre;
    forall w | w in Twins(rs, vs)
      ensures TwinOf(w, rs, vs)
    {
      if w in Twins(pre, vs) {
        var i :| 0 <= i < |pre| && FirstCandidate(pre[i], vs).Some? &&
                 w == MakeTwin(pre[i], vs[FirstCandidate(pre[i], vs).value]);
        assert rs[i] == pre[i];
      } else {
        assert rs[|rs| - 1] == t;
      }
    }
  }

  /** Given the strict split with q10 <= q90, every twin's resilience_diff is present and positive. */
  lemma TwinDiffPositive(rows: seq<Tract>, q10: real, q90: real)
    requires q10 <= q90
    ensures forall w :: w in Twins(ResilientLila(rows, q90), VulnerableLila(rows, q10)) ==>
              w.diff.Some? && w.diff.value > 0.0
  {
    var rs := ResilientLila(rows, q90);
    var vs := VulnerableLila(rows, q10);
    TwinsSpec(rs, vs);
    SplitSpec(rows, q10, q90);
    forall w | w in Twins(rs, vs)
      ensures w.diff.Some? && w.diff.value > 0.0
    {
      var i :| 0 <= i < |rs| && FirstCandidate(rs[i], vs).Some? &&
               w == MakeTwin(rs[i], vs[FirstCandidate(rs[i], vs).value]);
      var v := vs[FirstCandidate(rs[i], vs).value];
      assert rs[i] in rs && v in vs;
    }
  }

  /** The first candidate for t in vs, by a scan that stops at the first match. */
  method FirstMatch(t: Tract, vs: seq<Tract>) returns (k: Option<nat>)
    ensures k == FirstCandidate(t, vs)
  {
    var i := 0;
    while i < |vs|
      invariant 0 <= i <= |vs|
      invariant forall j :: 0 <= j < i ==> !Candidate(t, vs[j])
    {
      if Candidate(t, vs[i]) {
        return Some(i);
      }
      i := i + 1;
    }
    return None;
  }

  /** The twin search loop: one row per resilient tract that has a candidate, appended in order. */
  method FindTwins(resilient: seq<Tract>, vulnerable: seq<Tract>) returns (twins: seq<Twin>)
    ensures twins == Twins(resilient, vulnerable)
  {
    twins := [];
    for i := 0 to |resilient|
      invariant twins == Twins(resilient[..i], vulnerable)
    {
      var tract := resilient[i];
      var m := FirstMatch(tract, vulnerable);
      assert resilient[..i + 1][..i] == resilient[..i];
      assert resilient[..i + 1][i] == tract;
      if m.Some? {
        twins := twins + [MakeTwin(tract, vulnerable[m.value])];
      }
    }
    assert resilient[..|resilient|] == resilient;
  }

  // ---------------------------------------------------------------- state ranking and pair search

  /** The groupby key StateAbbr. */
  function AbbrKey(t: Tract): Option<string>
  {
    Some(t.stateAbbr)
  }

  /** A row counted by `agg('count')` on resilience_score: its score is present. */
  predicate HasScore(t: Tract)
  {
    t.score.Some?
  }

  /** The number of non-missing scores of state s. */
  function ScoreCount(lila: seq<Tract>, s: string): nat
  {
    KeyHits(lila, AbbrKey, HasScore, s)
  }

  /** The mask `count >= 10` on the state groups. */
  function Enough(lila: seq<Tract>): string -> bool
  {
    (s: string) => ScoreCount(lila, s) >= 10
  }

  /** state_list: the states with at least 10 scored LILA tracts, in groupby (sorted-key) order. */
  function RankedStates(lila: seq<Tract>): (r: seq<string>)
  {
    SortStrings(Filter(Distinct(PresentKeys(lila, AbbrKey)), Enough(lila)))
  }

  /** The ranking is strictly sorted and lists exactly the states with at least 10 scored tracts. */
  lemma RankedStatesSpec(lila: seq<Tract>)
    ensures StrictlySorted(RankedStates(lila))
    ensures forall s :: s in RankedStates(lila) <==>
              ScoreCount(lila, s) >= 10 && exists i :: 0 <= i < |lila| && lila[i].stateAbbr == s
  {
    var keys := Distinct(PresentKeys(lila, AbbrKey));
    var kept := Filter(keys, Enough(lila));
    FilterDistinct(keys, Enough(lila));
    SortDistinctIsStrict(kept);
    FilterSpec(keys, Enough(lila));
    MultisetMembers(SortStrings(kept), kept);
    forall s
      ensures (exists i :: 0 <= i < |lila| && AbbrKey(lila[i]) == Some(s)) <==>
              (exists i :: 0 <= i < |lila| && lila[i].stateAbbr == s)
    {
    }
  }

  /** Pair (a, b) comes before pair (c, d) in the order the nested loops visit them. */
  predicate Before(a: int, b: int, c: int, d: int)
  {
    a < c || (a == c && b < d)
  }

  /** The difference the search compares for the pair (a, b). */
  function Gap(means: seq<real>, a: nat, b: nat): real
    requires a < |means| && b < |means|
  {
    Abs(means[a] - means[b])
  }

  /** Every pair visited before (i, j) differs by at most d. */
  predicate BoundsBefore(means: seq<real>, i: int, j: int, d: real)
  {
    forall a: nat, b: nat :: a < b < |means| && Before(a, b, i, j) ==> Gap(means, a, b) <= d
  }

  /** The pair p differs by exactly d, and every pair visited before it by less. */
  predicate FirstAttaining(means: seq<real>, p: (nat, nat), d: real)
  {
    p.0 < p.1 < |means| &&
    Gap(means, p.0, p.1) == d &&
    forall a: nat, b: nat :: a < b < |means| && Before(a, b, p.0, p.1) ==> Gap(means, a, b) < d
  }

  /**
   * The nested-loop search for the largest |mean_i - mean_j| over pairs i < j, starting from
   * max_diff = 0 and replacing it only on a strictly larger difference: max_diff bounds every
   * difference; the pair, when present, is the first pair in visiting order that attains it;
   * it stays None exactly when all differences are 0, as with fewer than two states.
   */
  method MaxPair(means: seq<real>) returns (maxDiff: real, maxPair: Option<(nat, nat)>)
    ensures maxDiff >= 0.0
    ensures forall i: nat, j: nat :: i < j < |means| ==> Gap(means, i, j) <= maxDiff
    ensures maxPair.None? <==> maxDiff == 0.0
    ensures maxPair.Some? ==>
              maxPair.value.0 < maxPair.value.1 < |means| &&
              Gap(means, maxPair.value.0, maxPair.value.1) == maxDiff &&
              forall i: nat, j: nat :: i < j < |means| && Before(i, j, maxPair.value.0, maxPair.value.1) ==>
                Gap(means, i, j) < maxDiff
    ensures |means| < 2 ==> maxPair.None?
  {
    maxDiff := 0.0;
    maxPair := None;
    for i := 0 to |means|
      invariant maxDiff >= 0.0
      invariant BoundsBefore(means, i, 0, maxDiff)
      invariant maxPair.None? <==> maxDiff == 0.0
      invariant maxPair.Some? ==> maxPair.value.0 < i && FirstAttaining(means, maxPair.value, maxDiff)
    {
      maxDiff, maxPair := ScanRow(means, i, maxDiff, maxPair);
    }
    assert BoundsBefore(means, |means|, 0, maxDiff);
  }

  /** One pass of the inner loop of MaxPair: the pairs (i, j) for j > i, visited in order. */
  method ScanRow(means: seq<real>, i: nat, d0: real, p0: Option<(nat, nat)>) returns (maxDiff: real, maxPair: Option<(nat, nat)>)
    requires i < |means|
    requires d0 >= 0.0 && BoundsBefore(means, i, 0, d0)
    requires p0.None? <==> d0 == 0.0
    requires p0.Some? ==> p0.value.0 < i && FirstAttaining(means, p0.value, d0)
    ensures maxDiff >= d0 && BoundsBefore(means, i + 1, 0, maxDiff)
    ensures maxPair.None? <==> maxDiff == 0.0
    ensures maxPair.Some? ==> maxPair.value.0 <= i && FirstAttaining(means, maxPair.value, maxDiff)
  {
    maxDiff, maxPair := d0, p0;
    for j := i + 1 to |means|
      invariant maxDiff >= d0
      invariant BoundsBefore(means, i, j, maxDiff)
      invariant maxPair.None? <==> maxDiff == 0.0
      invariant maxPair.Some? ==>
                  Before(maxPair.value.0, maxPair.value.1, i, j) && FirstAttaining(means, maxPair.value, maxDiff)
    {
      var diff := Gap(means, i, j);
      if diff > maxDiff {
        maxDiff := diff;
        maxPair := Some((i, j));
      }
    }
  }

  /** The largest state difference: the pair search over the means of the ranked states, reported as state names. */
  method LargestStateDifference(lila: seq<Tract>, mean: string -> real)
    returns (maxDiff: real, pair: Option<(string, string)>)
    ensures var states := RankedStates(lila);
      maxDiff >= 0.0 &&
      (forall i, j :: 0 <= i < j < |states| ==> Abs(mean(states[i]) - mean(states[j])) <= maxDiff) &&
      (pair.None? <==> maxDiff == 0.0) &&
      (pair.Some? ==> exists i, j :: 0 <= i < j < |states| && pair.value == (states[i], states[j]) &&
                                     Abs(mean(states[i]) - mean(states[j])) == maxDiff)
  {
    var states := RankedStates(lila);
    var means := seq(|states|, i requires 0 <= i < |states| => mean(states[i]));
    var p;
    maxDiff, p := MaxPair(means);
    forall i, j | 0 <= i < j < |states|
      ensures Abs(mean(states[i]) - mean(states[j])) <= maxDiff
    {
      assert Gap(means, i, j) <= maxDiff;
    }
    if p.Some? {
      assert Gap(means, p.value.0, p.value.1) == maxDiff;
      pair := Some((states[p.value.0], states[p.value.1]));
    } else {
      pair := None;
    }
  }
}
