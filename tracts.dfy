// Census-tract records as the analysis scripts see them after their pandas merges,
// with the missing-value semantics of those merges, and the tract-identifier rules
// (zero padding and slicing into state, county and tract codes) they share.

module Tracts {
  import opened Wrappers
  import opened Text
  import Seqs

  /** A numeric cell; None is a missing value (NaN), as produced by an empty CSV cell or an unmatched left merge. */
  type Num = Option<real>

  /** `v > c` on a column: a missing value compares false. */
  predicate Above(v: Num, c: real)
  {
    v.Some? && v.value > c
  }

  /** `v < c`; false on a missing value. */
  predicate Below(v: Num, c: real)
  {
    v.Some? && v.value < c
  }

  /** `v <= c`; false on a missing value. */
  predicate AtMost(v: Num, c: real)
  {
    v.Some? && v.value <= c
  }

  /** `v == c`; false on a missing value. */
  predicate Is(v: Num, c: real)
  {
    v.Some? && v.value == c
  }

  /** Column-wise `a == b`; NaN equals nothing, not even NaN. */
  predicate Same(a: Num, b: Num)
  {
    a.Some? && b.Some? && a.value == b.value
  }

  /** `a - b`, missing when either operand is. */
  function Sub(a: Num, b: Num): (r: Num)
    ensures r.Some? <==> a.Some? && b.Some?
    ensures r.Some? ==> r.value + b.value == a.value
  {
    if a.Some? && b.Some? then Some(a.value - b.value) else None
  }

  /** abs() of a real. */
  function Abs(x: real): (r: real)
    ensures r >= 0.0 && (r == x || r == -x)
  {
    if x < 0.0 then -x else x
  }

  /** `abs(a - b) < c` on two columns; false when either value is missing. */
  predicate Near(a: Num, b: Num, c: real)
  {
    a.Some? && b.Some? && Abs(a.value - b.value) < c
  }

  /**
   * One tract row: the model-output columns (identifier, state, resilience score) joined
   * with the FARA columns the scripts read. Columns from the left merge may be missing.
   */
  datatype Tract = Tract(
    id: string,            // the tract identifier as text, before padding (TractFIPS / GEOID / Census_Tract)
    state: Option<string>, // FARA State name
    stateAbbr: string,     // two-letter state abbreviation from the model table
    county: Option<string>,
    score: Num,            // resilience_score
    lila: Num,             // LILATracts_1And10
    lilaHalf: Num,         // LILATracts_halfAnd10
    lila20: Num,           // LILATracts_1And20
    lilaVehicle: Num,      // LILATracts_Vehicle
    lowIncome: Num,        // LowIncomeTracts
    urban: Num,
    poverty: Num,          // PovertyRate
    pop: Num,              // Pop2010
    gq: Num,               // PCTGQTRS, percent of people in group quarters
    noVehicleFar: Num,     // lahunv10
    snap: Num              // TractSNAP
  )

  /** The LILA restriction `LILATracts_1And10 == 1`; a tract with no FARA match is not LILA. */
  predicate IsLila(t: Tract)
  {
    Is(t.lila, 1.0)
  }

  /** all_lila: the LILA rows, in their original order. */
  function Lila(rows: seq<Tract>): (r: seq<Tract>)
  {
    Seqs.Filter(rows, IsLila)
  }

  /** Every row of Lila(rows) is a LILA row of rows, and every LILA row is kept. */
  lemma LilaSpec(rows: seq<Tract>)
    ensures forall t :: t in Lila(rows) <==> t in rows && IsLila(t)
    ensures forall t :: t in Lila(rows) ==> t.lila == Some(1.0)
    ensures |Lila(rows)| <= |rows|
  {
    Seqs.FilterSpec(rows, IsLila);
  }

  /** The mask `score > q`. */
  function ScoreAboveMask(q: real): Tract -> bool
  {
    (t: Tract) => Above(t.score, q)
  }

  /** The mask `score < q`. */
  function ScoreBelowMask(q: real): Tract -> bool
  {
    (t: Tract) => Below(t.score, q)
  }

  /** Rows whose score is strictly above the threshold q (a quantile computed elsewhere). */
  function ScoreAbove(rows: seq<Tract>, q: real): (r: seq<Tract>)
  {
    Seqs.Filter(rows, ScoreAboveMask(q))
  }

  /** Rows whose score is strictly below the threshold q. */
  function ScoreBelow(rows: seq<Tract>, q: real): (r: seq<Tract>)
  {
    Seqs.Filter(rows, ScoreBelowMask(q))
  }

  /** Membership in the two strict threshold splits. */
  lemma ScoreSplitSpec(rows: seq<Tract>, q: real)
    ensures forall t :: t in ScoreAbove(rows, q) <==> t in rows && Above(t.score, q)
    ensures forall t :: t in ScoreBelow(rows, q) <==> t in rows && Below(t.score, q)
  {
    Seqs.FilterSpec(rows, ScoreAboveMask(q));
    Seqs.FilterSpec(rows, ScoreBelowMask(q));
  }

  /** The score as a sort key; only used on rows whose score is present. */
  function ScoreKey(t: Tract): real
  {
    t.score.GetOr(0.0)
  }

  /** `np.where(Urban == 1, 'Urban', 'Rural')`. */
  function TypeLabel(t: Tract): (s: string)
    ensures s == "Urban" <==> Is(t.urban, 1.0)
    ensures s == "Urban" || s == "Rural"
  {
    if Is(t.urban, 1.0) then "Urban" else "Rural"
  }

  /** `astype(str).str.zfill(11)`: the 11-character GEOID. */
  function Pad(id: string): (g: string)
  {
    ZFill(id, 11)
  }

  /** State FIPS code, `geoid[:2]`. */
  function StateCode(g: string): string
  {
    Slice(g, 0, 2)
  }

  /** County code within the state, `geoid[2:5]`. */
  function CountyCode(g: string): string
  {
    Slice(g, 2, 5)
  }

  /** County FIPS code including the state, `geoid[:5]`. */
  function CountyFips(g: string): string
  {
    Slice(g, 0, 5)
  }

  /** Tract code, `geoid[5:]`. */
  function TractCode(g: string): string
  {
    Slice(g, 5, |g|)
  }

  /** A padded identifier is at least 11 characters, padding again changes nothing, and a short unsigned id becomes zeros followed by the id. */
  lemma PadSpec(id: string)
    ensures |Pad(id)| >= 11 && |Pad(id)| == if |id| >= 11 then |id| else 11
    ensures Pad(Pad(id)) == Pad(id)
    ensures |id| >= 11 ==> Pad(id) == id
    ensures (id == [] || (id[0] != '+' && id[0] != '-')) && |id| < 11 ==>
              Pad(id) == Zeros(11 - |id|) + id && Pad(id)[11 - |id|..] == id
  {
    ZFillShape(id, 11);
    ZFillIdempotent(id, 11);
  }

  /** The state, county and tract codes of a padded identifier have 2, 3 and |g| - 5 characters and concatenate back to it; its county FIPS is the state code followed by the county code. */
  lemma SplitSpec(id: string)
    ensures var g := Pad(id);
      |StateCode(g)| == 2 && |CountyCode(g)| == 3 && |TractCode(g)| == |g| - 5 &&
      StateCode(g) + CountyCode(g) + TractCode(g) == g &&
      CountyFips(g) == StateCode(g) + CountyCode(g)
  {
    var g := Pad(id);
    PadSpec(id);
    assert g == g[0..2] + g[2..5] + g[5..|g|];
    assert g[0..5] == g[0..2] + g[2..5];
  }
}
