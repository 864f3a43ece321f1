// The discrete parts of the comprehensive analysis: the overlap matrix of the LILA
// definitions, the sensitivity counts per definition, the bivariate class of a tract and the
// case-study candidates.

module AnalyzeResilience {
  import opened Wrappers
  import opened Seqs
  import opened Tracts
  import GenerateTables

  // ---------------------------------------------------------------- overlap matrix

  /** The LILA definitions, in the order of the overlap matrix. */
  const LilaNames: seq<string> := ["LILATracts_1And10", "LILATracts_halfAnd10", "LILATracts_1And20", "LILATracts_Vehicle"]

  /** The column of the k-th LILA definition. */
  function LilaColumn(k: nat): Tract -> Num
  {
    if k == 0 then (t: Tract) => t.lila
    else if k == 1 then (t: Tract) => t.lilaHalf
    else if k == 2 then (t: Tract) => t.lila20
    else (t: Tract) => t.lilaVehicle
  }

  /** `(col1 == 1) & (col2 == 1)`. */
  function Both(c1: Tract -> Num, c2: Tract -> Num): Tract -> bool
  {
    (t: Tract) => c1(t) == Some(1.0) && c2(t) == Some(1.0)
  }

  /** Cell (i, j) of the overlap matrix: the count of tracts flagged by both definitions when i <= j, empty (NaN) below the diagonal. */
  function Overlap(fara: seq<Tract>, i: nat, j: nat): Option<nat>
  {
    if i <= j then Some(Count(fara, Both(LilaColumn(i), LilaColumn(j)))) else None
  }

  /** The nested loop that fills the 4 x 4 overlap matrix cell by cell. */
  method OverlapMatrix(fara: seq<Tract>) returns (m: seq<seq<Option<nat>>>)
    ensures |m| == |LilaNames|
    ensures forall i :: 0 <= i < |m| ==> |m[i]| == |LilaNames|
    ensures forall i, j :: 0 <= i < |m| && 0 <= j < |m[i]| ==> m[i][j] == Overlap(fara, i, j)
  {
    m := [];
    var i := 0;
    while i < |LilaNames|
      invariant 0 <= i <= |LilaNames| && |m| == i
      invariant forall a :: 0 <= a < i ==> |m[a]| == |LilaNames|
      invariant forall a, b :: 0 <= a < i && 0 <= b < |m[a]| ==> m[a][b] == Overlap(fara, a, b)
    {
      var row: seq<Option<nat>> := [];
      var j := 0;
      while j < |LilaNames|
        invariant 0 <= j <= |LilaNames| && |row| == j
        invariant forall b :: 0 <= b < j ==> row[b] == Overlap(fara, i, b)
      {
        if i <= j {
          var overlap := Count(fara, Both(LilaColumn(i), LilaColumn(j)));
          row := row + [Some(overlap)];
        } else {
          row := row + [None];
        }
        j := j + 1;
      }
      m := m + [row];
      i := i + 1;
    }
  }

  /**
   * The matrix holds counts exactly on and above the diagonal; a diagonal cell is the number
   * of tracts flagged by that definition; an off-diagonal cell is at most either definition's
   * count; and the count for a pair below the diagonal is the one stored above it.
   */
  lemma OverlapSpec(fara: seq<Tract>, i: nat, j: nat)
    ensures Overlap(fara, i, j).Some? <==> i <= j
    ensures Overlap(fara, i, i) == Some(Count(fara, GenerateTables.IsOne(LilaColumn(i))))
    ensures i <= j ==>
              Overlap(fara, i, j).value <= Count(fara, GenerateTables.IsOne(LilaColumn(i))) &&
              Overlap(fara, i, j).value <= Count(fara, GenerateTables.IsOne(LilaColumn(j)))
    ensures j < i ==> Overlap(fara, j, i) == Some(Count(fara, Both(LilaColumn(i), LilaColumn(j))))
  {
    GenerateTables.CountSame(fara, Both(LilaColumn(i), LilaColumn(i)), GenerateTables.IsOne(LilaColumn(i)));
    CountMono(fara, Both(LilaColumn(i), LilaColumn(j)), GenerateTables.IsOne(LilaColumn(i)));
    CountMono(fara, Both(LilaColumn(i), LilaColumn(j)), GenerateTables.IsOne(LilaColumn(j)));
    GenerateTables.CountSame(fara, Both(LilaColumn(j), LilaColumn(i)), Both(LilaColumn(i), LilaColumn(j)));
  }

  // ---------------------------------------------------------------- sensitivity

  /** One row of the sensitivity table; the mean and standard deviation are left out. */
  datatype SensitivityRow = SensitivityRow(threshold: string, nLila: nat, nResilient: nat, pctResilient: real)

  /** The tracts of definition k: `merged[col == 1]`. */
  function LilaUnder(merged: seq<Tract>, k: nat): seq<Tract>
  {
    Filter(merged, GenerateTables.IsOne(LilaColumn(k)))
  }

  /** The resilient tracts of definition k: those scoring above q, the 0.9 quantile of that definition's scores. */
  function ResilientUnder(merged: seq<Tract>, k: nat, q: real): seq<Tract>
  {
    Filter(LilaUnder(merged, k), ScoreAboveMask(q))
  }

  /**
   * The loop over the first three definitions: `len(resilient) / len(lila_tracts)` raises as
   * soon as one definition has no tract, and then no table is produced.
   */
  function Sensitivity(merged: seq<Tract>, qs: seq<real>, k: nat): (r: Result<seq<SensitivityRow>, string>)
    requires k <= 3 && |qs| == 3
    decreases 3 - k
  {
    if k == 3 then Success([])
    else
      var lila := LilaUnder(merged, k);
      var resilient := ResilientUnder(merged, k, qs[k]);
      if |lila| == 0 then Failure("ZeroDivisionError")
      else
        var rest := Sensitivity(merged, qs, k + 1);
        if rest.Failure? then rest
        else Success([SensitivityRow(LilaNames[k], |lila|, |resilient|, |resilient| as real / |lila| as real * 100.0)] + rest.value)
  }

  /** Some definition from k on has no tract. */
  predicate SomeEmpty(merged: seq<Tract>, k: nat)
  {
    exists d :: k <= d < 3 && |LilaUnder(merged, d)| == 0
  }

  /** A row of the sensitivity table carries definition d's LILA and resilient counts and their percentage. */
  predicate RowOfDefinition(row: SensitivityRow, merged: seq<Tract>, qs: seq<real>, d: nat)
    requires d < 3 && |qs| == 3
  {
    row.threshold == LilaNames[d] &&
    row.nLila == |LilaUnder(merged, d)| &&
    row.nResilient == |ResilientUnder(merged, d, qs[d])| &&
    row.nResilient <= row.nLila &&
    0.0 <= row.pctResilient <= 100.0
  }

  /**
   * The table fails exactly when some definition has no tract. Otherwise it has one row per
   * definition, in order, whose counts are that definition's LILA and resilient tracts, with
   * n_resilient <= n_lila and the percentage between 0 and 100.
   */
  lemma {:induction false} SensitivitySpec(merged: seq<Tract>, qs: seq<real>, k: nat)
    requires k <= 3 && |qs| == 3
    ensures var r := Sensitivity(merged, qs, k);
      (r.Failure? <==> SomeEmpty(merged, k)) &&
      (r.Success? ==>
         |r.value| == 3 - k &&
         forall i :: 0 <= i < |r.value| ==> RowOfDefinition(r.value[i], merged, qs, k + i))
    decreases 3 - k
  {
    if k < 3 {
      SensitivitySpec(merged, qs, k + 1);
      var lila := LilaUnder(merged, k);
      if |lila| > 0 {
        var r := Sensitivity(merged, qs, k);
        var rest := Sensitivity(merged, qs, k + 1);
        assert SomeEmpty(merged, k) <==> SomeEmpty(merged, k + 1);
        if rest.Success? {
          var head := r.value[0];
          assert r.value == [head] + rest.value;
          SensitivityHead(merged, qs, k);
          forall i | 0 <= i < |r.value|
            ensures RowOfDefinition(r.value[i], merged, qs, k + i)
          {
            if i > 0 {
              assert r.value[i] == rest.value[i - 1];
            }
          }
        }
      }
    }
  }

  /** The row for definition k, when it has tracts, fits that definition. */
  lemma SensitivityHead(merged: seq<Tract>, qs: seq<real>, k: nat)
    requires k < 3 && |qs| == 3 && |LilaUnder(merged, k)| > 0
    ensures var lila := LilaUnder(merged, k);
      var resilient := ResilientUnder(merged, k, qs[k]);
      RowOfDefinition(SensitivityRow(LilaNames[k], |lila|, |resilient|, |resilient| as real / |lila| as real * 100.0), merged, qs, k)
  {
    var lila := LilaUnder(merged, k);
    var resilient := ResilientUnder(merged, k, qs[k]);
    PercentOfWhole(|resilient| as real, |lila| as real);
  }

  /** Every resilient tract of a definition is one of its LILA tracts and scores above the threshold. */
  lemma ResilientUnderSpec(merged: seq<Tract>, k: nat, q: real)
    ensures forall t :: t in ResilientUnder(merged, k, q) <==>
              t in merged && LilaColumn(k)(t) == Some(1.0) && Above(t.score, q)
  {
    FilterSpec(merged, GenerateTables.IsOne(LilaColumn(k)));
    FilterSpec(LilaUnder(merged, k), ScoreAboveMask(q));
  }

  // ---------------------------------------------------------------- bivariate classes

  /** A tercile label of `qcut(q=3)`. */
  datatype Level = Low | Medium | High

  /** The position of a level. */
  function Index(l: Level): nat
  {
    match l
    case Low => 0
    case Medium => 1
    case High => 2
  }

  /** bivariate_map: (LILA intensity, resilience category) to a class from 1 to 9. */
  const BivariateMap: map<(Level, Level), nat> :=
    map[(Low, Low) := 1, (Low, Medium) := 2, (Low, High) := 3,
        (Medium, Low) := 4, (Medium, Medium) := 5, (Medium, High) := 6,
        (High, Low) := 7, (High, Medium) := 8, (High, High) := 9]

  /** The class of a tract: the map's value when both labels are present, 0 otherwise. */
  function BivariateClass(lila: Option<Level>, resilience: Option<Level>): nat
  {
    if lila.Some? && resilience.Some? then
      var key := (lila.value, resilience.value);
      if key in BivariateMap then BivariateMap[key] else 0
    else 0
  }

  /** The levels a class from 1 to 9 stands for. */
  function LevelAt(i: nat): Level
  {
    if i == 0 then Low else if i == 1 then Medium else High
  }

  /**
   * The class is 0 exactly when a label is missing, and otherwise 3 * idx(lila) +
   * idx(resilience) + 1, between 1 and 9, from which both labels can be read back.
   */
  lemma BivariateClassSpec(lila: Option<Level>, resilience: Option<Level>)
    ensures var c := BivariateClass(lila, resilience);
      (c == 0 <==> lila.None? || resilience.None?) &&
      (lila.Some? && resilience.Some? ==>
         c == 3 * Index(lila.value) + Index(resilience.value) + 1 &&
         1 <= c <= 9 &&
         LevelAt((c - 1) / 3) == lila.value && LevelAt((c - 1) % 3) == resilience.value)
  {
    if lila.Some? && resilience.Some? {
      match (lila.value, resilience.value)
      case (Low, Low) => assert BivariateMap[(Low, Low)] == 1;
      case (Low, Medium) => assert BivariateMap[(Low, Medium)] == 2;
      case (Low, High) => assert BivariateMap[(Low, High)] == 3;
      case (Medium, Low) => assert BivariateMap[(Medium, Low)] == 4;
      case (Medium, Medium) => assert BivariateMap[(Medium, Medium)] == 5;
      case (Medium, High) => assert BivariateMap[(Medium, High)] == 6;
      case (High, Low) => assert BivariateMap[(High, Low)] == 7;
      case (High, Medium) => assert BivariateMap[(High, Medium)] == 8;
      case (High, High) => assert BivariateMap[(High, High)] == 9;
    }
  }

  /** Distinct pairs of labels get distinct classes. */
  lemma BivariateInjective(a: Level, b: Level, c: Level, d: Level)
    requires BivariateClass(Some(a), Some(b)) == BivariateClass(Some(c), Some(d))
    ensures a == c && b == d
  {
    BivariateClassSpec(Some(a), Some(b));
    BivariateClassSpec(Some(c), Some(d));
  }

  // ---------------------------------------------------------------- case studies

  /** `(LILATracts_1And10 == 1) & (resilience_score > q90)`, q90 the 0.9 quantile of all merged scores. */
  function LilaResilient(q90: real): Tract -> bool
  {
    (t: Tract) => IsLila(t) && Above(t.score, q90)
  }

  /** top_cases: the 20 highest-scoring resilient LILA tracts, highest first. */
  function CaseStudies(merged: seq<Tract>, q90: real): seq<Tract>
  {
    Largest(Filter(merged, LilaResilient(q90)), 20, ScoreKey)
  }

  /**
   * At most 20 candidates (fewer only when fewer qualify), each a LILA tract of the input
   * scoring above q90, highest first; no qualifying tract left out scores higher than one kept.
   */
  lemma CaseStudiesSpec(merged: seq<Tract>, q90: real)
    ensures var cands := Filter(merged, LilaResilient(q90));
      var r := CaseStudies(merged, q90);
      |r| == (if |cands| < 20 then |cands| else 20) &&
      (forall t :: t in r ==> t in merged && IsLila(t) && t.score.Some? && t.score.value > q90) &&
      (forall i, j :: 0 <= i < j < |r| ==> r[i].score.value >= r[j].score.value) &&
      (forall x, y :: x in r && y in multiset(cands) - multiset(r) ==> ScoreKey(x) >= ScoreKey(y))
  {
    CaseStudiesMembers(merged, q90);
    CaseStudiesOrder(merged, q90);
  }

  /** Each candidate is a LILA tract of the input scoring above q90. */
  lemma CaseStudiesMembers(merged: seq<Tract>, q90: real)
    ensures forall t :: t in CaseStudies(merged, q90) ==>
              t in merged && IsLila(t) && t.score.Some? && t.score.value > q90
  {
    var cands := Filter(merged, LilaResilient(q90));
    var r := CaseStudies(merged, q90);
    FilterSpec(merged, LilaResilient(q90));
    forall t | t in r
      ensures t in merged && IsLila(t) && t.score.Some? && t.score.value > q90
    {
      assert t in multiset(r);
      assert t in cands;
    }
  }

  /** The candidates come highest score first. */
  lemma CaseStudiesOrder(merged: seq<Tract>, q90: real)
    ensures var r := CaseStudies(merged, q90);
      forall i, j :: 0 <= i < j < |r| ==> r[i].score.Some? && r[j].score.Some? && r[i].score.value >= r[j].score.value
  {
    var r := CaseStudies(merged, q90);
    CaseStudiesMembers(merged, q90);
    forall i, j | 0 <= i < j < |r|
      ensures r[i].score.Some? && r[j].score.Some? && r[i].score.value >= r[j].score.value
    {
      assert r[i] in r && r[j] in r;
      assert ScoreKey(r[i]) >= ScoreKey(r[j]);
    }
  }
}
