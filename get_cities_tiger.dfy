// City labelling of the resilient tracts from their county FIPS codes: the list of state
// codes to fetch, the known-places lookup with a county-name fallback, and the
// college/military designation whose loops let the last matching rule win.

module GetCitiesTiger {
  import opened Wrappers
  import opened Text
  import opened Seqs
  import opened Tracts

  /** The distinct state FIPS codes of the padded tract ids, in order of first appearance (`str[:2].unique()`). */
  function StateFipsList(ids: seq<string>): (r: seq<string>)
  {
    Distinct(seq(|ids|, i requires 0 <= i < |ids| => StateCode(Pad(ids[i]))))
  }

  /** Each state code appears once, has two characters, and is the prefix of some padded id; every id's prefix is listed. */
  lemma StateFipsListSpec(ids: seq<string>)
    ensures var r := StateFipsList(ids);
      (forall i, j :: 0 <= i < j < |r| ==> r[i] != r[j]) &&
      (forall s :: s in r <==> exists i :: 0 <= i < |ids| && s == StateCode(Pad(ids[i]))) &&
      (forall i :: 0 <= i < |r| ==> |r[i]| == 2) &&
      |r| <= |ids|
  {
    var codes := seq(|ids|, i requires 0 <= i < |ids| => StateCode(Pad(ids[i])));
    var r := StateFipsList(ids);
    assert forall i :: 0 <= i < |ids| ==> codes[i] == StateCode(Pad(ids[i]));
    forall i | 0 <= i < |r|
      ensures |r[i]| == 2
    {
      assert r[i] in codes;
      var j :| 0 <= j < |ids| && codes[j] == r[i];
      SplitSpec(ids[j]);
    }
  }

  /** The hand-made county-FIPS-to-city table. */
  const KnownPlaces: map<string, string> := map[
    "48453" := "Austin", "48201" := "Houston", "48113" := "Dallas", "48029" := "San Antonio",
    "48439" := "Fort Worth", "48041" := "College Station",
    "06073" := "San Diego", "06037" := "Los Angeles", "06085" := "San Jose",
    "26161" := "Ann Arbor", "26065" := "East Lansing", "26077" := "Kalamazoo",
    "18097" := "Indianapolis", "18105" := "Bloomington", "18157" := "West Lafayette",
    "39049" := "Columbus", "39009" := "Athens",
    "36109" := "Ithaca", "28071" := "Oxford", "13059" := "Athens", "01087" := "Auburn",
    "20161" := "Manhattan", "45063" := "Clemson",
    "37133" := "Jacksonville", "37051" := "Fayetteville", "48141" := "El Paso", "13179" := "Hinesville"
  ]

  /** The county-name fallback: every " County" removed, then every " Parish". */
  function CountyAsCity(name: string): (c: string)
  {
    Replace(Replace(name, " County", ""), " Parish", "")
  }

  /** City: the known place of the tract's county FIPS code, else the county name without its suffixes; missing with a missing county. */
  function City(t: Tract): (c: Option<string>)
  {
    var fips := CountyFips(Pad(t.id));
    if fips in KnownPlaces then Some(KnownPlaces[fips])
    else if t.county.Some? then Some(CountyAsCity(t.county.value))
    else None
  }

  /**
   * A listed county FIPS code decides the city; otherwise the city is missing exactly when the
   * county is, is never longer than the county name, and is the county name itself when the
   * name has neither suffix.
   */
  lemma CitySpec(t: Tract)
    ensures var fips := CountyFips(Pad(t.id));
      (fips in KnownPlaces ==> City(t) == Some(KnownPlaces[fips])) &&
      (fips !in KnownPlaces ==> (City(t).None? <==> t.county.None?)) &&
      (fips !in KnownPlaces && t.county.Some? ==> |City(t).value| <= |t.county.value|) &&
      ((fips !in KnownPlaces && t.county.Some? &&
        !Contains(t.county.value, " County") && !Contains(t.county.value, " Parish")) ==> City(t) == t.county)
  {
    if t.county.Some? {
      var name := t.county.value;
      RemoveShortens(name, " County");
      RemoveShortens(Replace(name, " County", ""), " Parish");
      if !Contains(name, " County") && !Contains(name, " Parish") {
        ReplaceAbsent(name, " County", "");
        ReplaceAbsent(name, " Parish", "");
      }
    }
  }

  /** Counties taken to hold a large college population. */
  const CollegeCounties: seq<string> := ["Tompkins", "Lafayette", "Clarke", "Lee", "Riley", "Tippecanoe",
                                         "Monroe", "Athens", "Washtenaw", "Ingham", "Brazos", "Story"]

  /** Counties taken to hold a large military population. */
  const MilitaryCounties: seq<string> := ["Onslow", "Cumberland", "El Paso", "Liberty", "Bell", "Christian"]

  /** `County.str.contains(name, na=False)` for any of the names. */
  predicate Mentions(county: Option<string>, names: seq<string>)
  {
    county.Some? && ContainsAny(county.value, names)
  }

  /** The Special_Population label: "Military" if a military name occurs in the county, else "College" if a college name does, else "None". */
  function SpecialOf(county: Option<string>): (s: string)
  {
    if Mentions(county, MilitaryCounties) then "Military"
    else if Mentions(county, CollegeCounties) then "College"
    else "None"
  }

  /** The three labels partition the tracts, with the military rule taking precedence; a missing county is "None". */
  lemma SpecialOfSpec(county: Option<string>)
    ensures SpecialOf(county) == "Military" <==>
              county.Some? && exists k :: 0 <= k < |MilitaryCounties| && Contains(county.value, MilitaryCounties[k])
    ensures SpecialOf(county) == "College" <==>
              county.Some? && (exists k :: 0 <= k < |CollegeCounties| && Contains(county.value, CollegeCounties[k])) &&
              forall k :: 0 <= k < |MilitaryCounties| ==> !Contains(county.value, MilitaryCounties[k])
    ensures county.None? ==> SpecialOf(county) == "None"
  {
    if county.Some? {
      ContainsAnySpec(county.value, MilitaryCounties);
      ContainsAnySpec(county.value, CollegeCounties);
    }
  }

  /** One more name in a prefix: the prefix mentions it or one before it. */
  lemma MentionsStep(county: Option<string>, names: seq<string>, k: nat)
    requires k < |names|
    ensures Mentions(county, names[..k + 1]) <==>
              Mentions(county, names[..k]) || (county.Some? && Contains(county.value, names[k]))
  {
    assert names[..k + 1][..k] == names[..k];
  }

  /**
   * One of the two loops: for each name in turn, `df.loc[County.str.contains(name, na=False),
   * 'Special_Population'] = tag`. Afterwards a row holds tag exactly when its county
   * mentions one of the names, and keeps its old label otherwise.
   */
  method ApplyRule(col: array<string>, counties: seq<Option<string>>, names: seq<string>, tag: string)
    requires col.Length == |counties|
    modifies col
    ensures forall j :: 0 <= j < col.Length ==> col[j] == if Mentions(counties[j], names) then tag else old(col[j])
  {
    for k := 0 to |names|
      invariant forall j :: 0 <= j < col.Length ==>
                  col[j] == if Mentions(counties[j], names[..k]) then tag else old(col[j])
    {
      for i := 0 to col.Length
        invariant forall j :: 0 <= j < i ==>
                    col[j] == if Mentions(counties[j], names[..k + 1]) then tag else old(col[j])
        invariant forall j :: i <= j < col.Length ==>
                    col[j] == if Mentions(counties[j], names[..k]) then tag else old(col[j])
      {
        MentionsStep(counties[i], names, k);
        if counties[i].Some? && Contains(counties[i].value, names[k]) {
          col[i] := tag;
        }
      }
    }
    assert names[..|names|] == names;
  }

  /**
   * The Special_Population column: start with "None", run the college rule, then the military
   * rule; the last write wins, so the column ends up holding SpecialOf of every county.
   */
  method SpecialPopulation(counties: seq<Option<string>>) returns (labels: seq<string>)
    ensures |labels| == |counties|
    ensures forall i :: 0 <= i < |counties| ==> labels[i] == SpecialOf(counties[i])
  {
    var col := new string[|counties|](_ => "None");
    ApplyRule(col, counties, CollegeCounties, "College");
    ApplyRule(col, counties, MilitaryCounties, "Military");
    labels := col[..];
  }

  /** The label "College". */
  predicate IsCollege(s: string)
  {
    s == "College"
  }

  /** The label "Military". */
  predicate IsMilitary(s: string)
  {
    s == "Military"
  }

  /** college_pct and military_pct; missing (NaN) on an empty table. */
  function SpecialShares(labels: seq<string>): (r: Option<(real, real)>)
    ensures r.None? <==> labels == []
  {
    if labels == [] then None
    else
      var n := |labels| as real;
      Some((Count(labels, IsCollege) as real / n * 100.0, Count(labels, IsMilitary) as real / n * 100.0))
  }

  /** The two shares are non-negative and, the labels being exclusive, add up to at most 100. */
  lemma SpecialSharesBounded(labels: seq<string>)
    requires labels != []
    ensures SpecialShares(labels).value.0 >= 0.0 && SpecialShares(labels).value.1 >= 0.0
    ensures SpecialShares(labels).value.0 + SpecialShares(labels).value.1 <= 100.0
  {
    CountDisjoint(labels, IsCollege, IsMilitary);
    SharesOfDisjoint(Count(labels, IsCollege) as real, Count(labels, IsMilitary) as real, |labels| as real);
  }

  /** Two disjoint parts of n rows make up at most 100 percent of it. */
  lemma SharesOfDisjoint(a: real, b: real, n: real)
    requires 0.0 <= a && 0.0 <= b && a + b <= n && n > 0.0
    ensures a / n * 100.0 >= 0.0 && b / n * 100.0 >= 0.0
    ensures a / n * 100.0 + b / n * 100.0 <= 100.0
  {
    assert a / n + b / n == (a + b) / n;
    FractionAtMostOne(a + b, n);
  }

  /** A part of a positive whole is at most one whole. */
  lemma FractionAtMostOne(p: real, n: real)
    requires 0.0 <= p <= n && n > 0.0
    ensures 0.0 <= p / n <= 1.0
  {
    var f := p / n;
    assert f * n == p;
  }
}
