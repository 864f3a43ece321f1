// Place names for the resilient LILA tracts: the padded GEOID, the left join with the
// gazetteer centroids, the county-level place table with its County, State fallback, the
// college-town and military keyword flags and the summary counts.

module GetCitiesTigerFull {
  import opened Wrappers
  import opened Text
  import opened Seqs
  import opened Tracts

  // ---------------------------------------------------------------- centroids

  /** A gazetteer row: a tract GEOID and its internal point. */
  datatype Centroid = Centroid(geoid: string, latitude: real, longitude: real)

  /** A resilient tract after the merge: the row, its GEOID and its coordinates, missing when the gazetteer has none. */
  datatype Located = Located(tract: Tract, geoid: string, latitude: Num, longitude: Num)

  /** `gaz_df.GEOID == g`. */
  function GeoidIs(g: string): Centroid -> bool
  {
    (c: Centroid) => c.geoid == g
  }

  /** The merge result for one row: one row per matching centroid, in gazetteer order, or one row without coordinates. */
  function LocateRow(t: Tract, gaz: seq<Centroid>): seq<Located>
  {
    var g := Pad(t.id);
    var ms := Filter(gaz, GeoidIs(g));
    if ms == [] then [Located(t, g, None, None)]
    else seq(|ms|, i requires 0 <= i < |ms| => Located(t, g, Some(ms[i].latitude), Some(ms[i].longitude)))
  }

  /** `df.merge(gaz_df, on='GEOID', how='left')` after `GEOID = Census_Tract.zfill(11)`, left rows in order. */
  function LeftJoin(df: seq<Tract>, gaz: seq<Centroid>): seq<Located>
  {
    if df == [] then [] else LocateRow(df[0], gaz) + LeftJoin(df[1..], gaz)
  }

  /**
   * Every input row survives the merge, so the result is at least as long as the input;
   * every result row carries the padded GEOID of its tract, and its latitude is missing
   * exactly when the gazetteer has no centroid with that GEOID.
   */
  lemma {:induction false} LeftJoinSpec(df: seq<Tract>, gaz: seq<Centroid>)
    ensures var j := LeftJoin(df, gaz);
      |j| >= |df| &&
      (forall t :: t in df ==> exists r :: r in j && r.tract == t) &&
      (forall r :: r in j ==>
         r.tract in df && r.geoid == Pad(r.tract.id) &&
         (r.latitude.None? <==> forall c :: c in gaz ==> c.geoid != r.geoid) &&
         (r.latitude.None? <==> r.longitude.None?))
  {
    if df != [] {
      var t := df[0];
      LeftJoinSpec(df[1..], gaz);
      FilterSpec(gaz, GeoidIs(Pad(t.id)));
      var here := LocateRow(t, gaz);
      assert LeftJoin(df, gaz) == here + LeftJoin(df[1..], gaz);
      assert here[0] in here;
      assert forall u :: u in df ==> u == t || u in df[1..];
      forall r | r in here
        ensures r.tract == t && r.geoid == Pad(t.id)
        ensures r.latitude.None? <==> forall c :: c in gaz ==> c.geoid != r.geoid
        ensures r.latitude.None? <==> r.longitude.None?
      {
        var ms := Filter(gaz, GeoidIs(Pad(t.id)));
        if ms != [] {
          assert ms[0] in ms;
        }
      }
    }
  }

  /** A gazetteer with at most one centroid per GEOID has at most one match for any GEOID. */
  lemma {:induction false} UniqueMatch(gaz: seq<Centroid>, g: string)
    requires forall i, j :: 0 <= i < j < |gaz| ==> gaz[i].geoid != gaz[j].geoid
    ensures |Filter(gaz, GeoidIs(g))| <= 1
  {
    if gaz != [] {
      UniqueMatch(gaz[1..], g);
      FilterSpec(gaz[1..], GeoidIs(g));
    }
  }

  /** With one centroid per GEOID, the merge keeps exactly the input rows, in order. */
  lemma {:induction false} LeftJoinUnique(df: seq<Tract>, gaz: seq<Centroid>)
    requires forall i, j :: 0 <= i < j < |gaz| ==> gaz[i].geoid != gaz[j].geoid
    ensures var j := LeftJoin(df, gaz);
      |j| == |df| && forall i :: 0 <= i < |df| ==> j[i].tract == df[i]
  {
    if df != [] {
      LeftJoinUnique(df[1..], gaz);
      UniqueMatch(gaz, Pad(df[0].id));
      var j := LeftJoin(df, gaz);
      assert |LocateRow(df[0], gaz)| == 1;
      forall i | 0 <= i < |df|
        ensures j[i].tract == df[i]
      {
        if i > 0 {
          assert j[i] == LeftJoin(df[1..], gaz)[i - 1];
        }
      }
    }
  }

  // ---------------------------------------------------------------- places

  /** place_mapping: county FIPS code to a place name. */
  const PlaceMapping: map<string, string> :=
    map["48453" := "Austin, TX", "48201" := "Houston, TX", "48113" := "Dallas, TX",
        "48029" := "San Antonio, TX", "06073" := "San Diego, CA", "26161" := "Ann Arbor, MI",
        "26065" := "East Lansing, MI", "18097" := "Indianapolis, IN", "18105" := "Bloomington, IN",
        "18157" := "West Lafayette, IN", "39049" := "Columbus, OH", "36109" := "Ithaca, NY",
        "28071" := "Oxford, MS", "13059" := "Athens, GA", "37133" := "Jacksonville, NC",
        "37051" := "Fayetteville, NC"]

  /**
   * Place: the mapped name of the county FIPS code `GEOID[:5]` when there is one, else
   * `County + ', ' + State_Abbr`, which is missing (NaN) when County is.
   */
  function Place(r: Located): Option<string>
  {
    var fips := CountyFips(r.geoid);
    if fips in PlaceMapping then Some(PlaceMapping[fips])
    else if r.tract.county.Some? then Some(r.tract.county.value + ", " + r.tract.stateAbbr)
    else None
  }

  /** The mapping wins when the county FIPS code is in it; otherwise the fallback names the county and the state. */
  lemma PlaceSpec(r: Located)
    ensures CountyFips(r.geoid) in PlaceMapping ==> Place(r) == Some(PlaceMapping[CountyFips(r.geoid)])
    ensures CountyFips(r.geoid) !in PlaceMapping ==>
              (Place(r).Some? <==> r.tract.county.Some?) &&
              (Place(r).Some? ==>
                 r.tract.county.value <= Place(r).value &&
                 Place(r).value[|r.tract.county.value|..] == ", " + r.tract.stateAbbr)
  {
  }

  /** The corrected get_places_via_census_api: the Place of every merged row, row for row, without the per-state loop. */
  function Places(rows: seq<Located>): (r: seq<Option<string>>)
    ensures |r| == |rows|
  {
    seq(|rows|, i requires 0 <= i < |rows| => Place(rows[i]))
  }

  /**
   * Every merged row gets a Place: the mapped name, or its county and state, and a missing
   * Place only for a row whose County is missing and whose county FIPS code is not mapped.
   */
  lemma PlacesSpec(rows: seq<Located>)
    ensures forall i :: 0 <= i < |rows| ==>
              (Places(rows)[i].None? <==> CountyFips(rows[i].geoid) !in PlaceMapping && rows[i].tract.county.None?)
  {
    forall i | 0 <= i < |rows|
      ensures Places(rows)[i].None? <==> CountyFips(rows[i].geoid) !in PlaceMapping && rows[i].tract.county.None?
    {
      PlaceSpec(rows[i]);
    }
  }

  /** The columns of the resilient communities file. */
  const ExtractColumns: seq<string> := ["Census_Tract", "County", "State", "State_Abbr", "Resilience_Score",
                                        "Health_Burden", "Urban_Rural", "Population_2010", "Poverty_Rate", "Median_Income"]

  /** The columns of the frame main hands over: the file's, GEOID, the two centroid columns and geometry. */
  const MergedColumns: seq<string> := ExtractColumns + ["GEOID", "latitude", "longitude", "geometry"]

  /** get_places_via_census_api as written: the per-state loop reads the column state_fips before any place is assigned. */
  function PlacesAsWritten(columns: seq<string>, rows: seq<Located>): (r: Result<seq<Option<string>>, string>)
  {
    if "state_fips" !in columns then Failure("KeyError: 'state_fips'") else Success(Places(rows))
  }

  /** The frame main builds has no state_fips column, so as written the step fails on every input. */
  lemma StateFipsMissing(rows: seq<Located>)
    ensures "state_fips" !in MergedColumns
    ensures PlacesAsWritten(MergedColumns, rows).Failure?
  {
    assert forall i :: 0 <= i < |MergedColumns| ==> |MergedColumns[i]| != 10 || MergedColumns[i][0] != 's';
  }

  // ---------------------------------------------------------------- keyword flags

  /** `str(x)`: a missing Place prints as "nan". */
  function Str(place: Option<string>): string
  {
    if place.Some? then place.value else "nan"
  }

  /** The college keywords. */
  const CollegeKeywords: seq<string> := ["University", "College", "State", "Ann Arbor", "Ithaca",
                                         "Bloomington", "Oxford", "Athens", "West Lafayette", "East Lansing"]

  /** The military keywords. */
  const MilitaryKeywords: seq<string> := ["Fort", "Base", "Naval", "Jacksonville, NC", "Fayetteville, NC",
                                          "El Paso", "Killeen"]

  /** Is_College_Town: some college keyword is a substring of the Place. */
  predicate IsCollegeTown(place: Option<string>)
  {
    ContainsAny(Str(place), CollegeKeywords)
  }

  /** Is_Military: some military keyword is a substring of the Place. */
  predicate IsMilitary(place: Option<string>)
  {
    ContainsAny(Str(place), MilitaryKeywords)
  }

  /**
   * Each flag holds exactly when one of its keywords occurs in the Place; the two are
   * computed independently, and a missing Place ("nan") raises neither, every keyword being
   * longer than three characters.
   */
  lemma FlagsSpec(place: Option<string>)
    ensures IsCollegeTown(place) <==> exists k :: 0 <= k < |CollegeKeywords| && Contains(Str(place), CollegeKeywords[k])
    ensures IsMilitary(place) <==> exists k :: 0 <= k < |MilitaryKeywords| && Contains(Str(place), MilitaryKeywords[k])
    ensures place.None? ==> !IsCollegeTown(place) && !IsMilitary(place)
  {
    ContainsAnySpec(Str(place), CollegeKeywords);
    ContainsAnySpec(Str(place), MilitaryKeywords);
    if place.None? {
      forall k | 0 <= k < |CollegeKeywords|
        ensures !Contains("nan", CollegeKeywords[k])
      {
        ContainsLength("nan", CollegeKeywords[k]);
      }
      forall k | 0 <= k < |MilitaryKeywords|
        ensures !Contains("nan", MilitaryKeywords[k])
      {
        ContainsLength("nan", MilitaryKeywords[k]);
      }
    }
  }

  // ---------------------------------------------------------------- summary

  /** The counted part of the summary; the top places, the mean and the maximum score are left out. */
  datatype Summary = Summary(total: nat, uniquePlaces: nat, collegeTown: nat, militaryArea: nat)

  /** The Place of a merged row, as a groupby key. */
  function PlaceKey(r: Located): Option<string>
  {
    Place(r)
  }

  function CollegeRow(r: Located): bool
  {
    IsCollegeTown(Place(r))
  }

  function MilitaryRow(r: Located): bool
  {
    IsMilitary(Place(r))
  }

  /** The summary counts: rows, distinct non-missing places and the two flags' true counts. */
  function Summarize(rows: seq<Located>): Summary
  {
    Summary(|rows|, |Distinct(PresentKeys(rows, PlaceKey))|, Count(rows, CollegeRow), Count(rows, MilitaryRow))
  }

  /** Tracts flagged neither way. */
  function Normal(r: Located): bool
  {
    !CollegeRow(r) && !MilitaryRow(r)
  }

  /** Tracts flagged both ways. */
  function Both(r: Located): bool
  {
    CollegeRow(r) && MilitaryRow(r)
  }

  /**
   * Each count is at most the number of tracts, and the tracts flagged neither way number
   * total - college - military plus those flagged both ways, so the printed count of
   * 'normal' tracts is exact only when no tract carries both flags.
   */
  lemma SummarizeSpec(rows: seq<Located>)
    ensures var s := Summarize(rows);
      s.total == |rows| &&
      s.collegeTown <= s.total && s.militaryArea <= s.total && s.uniquePlaces <= s.total &&
      Count(rows, Normal) + s.collegeTown + s.militaryArea == s.total + Count(rows, Both)
  {
    DistinctBound(rows);
    InclusionExclusion(rows);
  }

  /** There are no more distinct places than rows. */
  lemma DistinctBound(rows: seq<Located>)
    ensures |Distinct(PresentKeys(rows, PlaceKey))| <= |rows|
  {
    var ks := Distinct(PresentKeys(rows, PlaceKey));
    var ix := seq(|ks|, i requires 0 <= i < |ks| => FirstRowOf(rows, ks[i]));
    InjectiveBound(ix, |rows|);
  }

  /** The first row whose Place is k. */
  function FirstRowOf(rows: seq<Located>, k: string): (i: nat)
    requires exists i :: 0 <= i < |rows| && PlaceKey(rows[i]) == Some(k)
    ensures i < |rows| && PlaceKey(rows[i]) == Some(k)
  {
    if PlaceKey(rows[0]) == Some(k) then 0 else 1 + FirstRowOf(rows[1..], k)
  }

  /** A duplicate-free sequence of naturals below n has at most n elements. */
  lemma {:induction false} InjectiveBound(ix: seq<nat>, n: nat)
    requires forall i :: 0 <= i < |ix| ==> ix[i] < n
    requires forall i, j :: 0 <= i < j < |ix| ==> ix[i] != ix[j]
    ensures |ix| <= n
    decreases |ix|
  {
    if ix != [] {
      var m := ix[0];
      var rest := seq(|ix| - 1, i requires 0 <= i < |ix| - 1 => if ix[i + 1] == n - 1 then m else ix[i + 1]);
      var rest2 := if m == n - 1 then ix[1..] else rest;
      InjectiveRest(ix, n, m, rest, rest2);
      InjectiveBound(rest2, n - 1);
    }
  }

  /** The step of InjectiveBound: dropping the first element and renaming n - 1 to it keeps the sequence duplicate-free and below n - 1. */
  lemma InjectiveRest(ix: seq<nat>, n: nat, m: nat, rest: seq<nat>, rest2: seq<nat>)
    requires ix != [] && m == ix[0]
    requires forall i :: 0 <= i < |ix| ==> ix[i] < n
    requires forall i, j :: 0 <= i < j < |ix| ==> ix[i] != ix[j]
    requires |rest| == |ix| - 1 && forall i :: 0 <= i < |rest| ==> rest[i] == if ix[i + 1] == n - 1 then m else ix[i + 1]
    requires rest2 == if m == n - 1 then ix[1..] else rest
    ensures |rest2| == |ix| - 1 && n >= 1
    ensures forall i :: 0 <= i < |rest2| ==> rest2[i] < n - 1
    ensures forall i, j :: 0 <= i < j < |rest2| ==> rest2[i] != rest2[j]
  {
    assert ix[0] < n;
    forall i | 0 <= i < |rest2|
      ensures rest2[i] < n - 1
    {
      assert ix[i + 1] != m;
    }
    forall i, j | 0 <= i < j < |rest2|
      ensures rest2[i] != rest2[j]
    {
      assert ix[i + 1] != ix[j + 1];
    }
  }

  /** Inclusion and exclusion for the two flags. */
  lemma {:induction false} InclusionExclusion(rows: seq<Located>)
    ensures Count(rows, Normal) + Count(rows, CollegeRow) + Count(rows, MilitaryRow) == |rows| + Count(rows, Both)
  {
    if rows != [] {
      InclusionExclusion(rows[1..]);
    }
  }
}
