// City labels of the resilient tracts by county name: the slicing of a tract identifier
// into the codes a geocoding request is built from, the county-to-city table with its
// fallback to the county name, and the "City, ST" label.

module GetCitiesCensus {
  import opened Wrappers
  import opened Text
  import opened Tracts

  /** The state, county and tract codes of a geocoding request. */
  datatype TractParts = TractParts(state: string, county: string, tractCode: string)

  /** `tract[:2]`, `tract[2:5]` and `tract[5:11]` of the identifier zero-padded to 11 characters. */
  function PartsOf(id: string): (p: TractParts)
  {
    var g := Pad(id);
    TractParts(Slice(g, 0, 2), Slice(g, 2, 5), Slice(g, 5, 11))
  }

  /**
   * The codes have 2, 3 and 6 characters and are consecutive pieces of the first 11
   * characters of the padded identifier; for an identifier of at most 11 characters they
   * make it up entirely. The state and county codes agree with the ones the other scripts
   * slice out.
   */
  lemma PartsOfSpec(id: string)
    ensures var p := PartsOf(id); var g := Pad(id);
      |p.state| == 2 && |p.county| == 3 && |p.tractCode| == 6 &&
      p.state + p.county + p.tractCode == g[..11] &&
      (|id| <= 11 ==> p.state + p.county + p.tractCode == g) &&
      p.state == StateCode(g) && p.county == CountyCode(g)
  {
    PadSpec(id);
    var g := Pad(id);
    assert g[..11] == g[0..2] + g[2..5] + g[5..11];
  }

  /** The hand-made table from full county names to major cities. */
  const CountyCities: map<string, string> := map[
    "Harris County" := "Houston",
    "Maricopa County" := "Phoenix",
    "Travis County" := "Austin",
    "Dallas County" := "Dallas",
    "Bexar County" := "San Antonio",
    "King County" := "Seattle",
    "Franklin County" := "Columbus",
    "Marion County" := "Indianapolis",
    "Davidson County" := "Nashville",
    "Tarrant County" := "Fort Worth",
    "San Diego County" := "San Diego",
    "Wake County" := "Raleigh",
    "Gwinnett County" := "Atlanta area",
    "Fulton County" := "Atlanta",
    "Honolulu County" := "Honolulu",
    "Ingham County" := "Lansing/East Lansing",
    "Washtenaw County" := "Ann Arbor",
    "Tippecanoe County" := "Lafayette/West Lafayette",
    "Monroe County" := "Bloomington",
    "Clarke County" := "Athens",
    "Brazos County" := "College Station",
    "Lee County" := "Auburn",
    "Riley County" := "Manhattan",
    "Story County" := "Ames",
    "Dane County" := "Madison",
    "Boulder County" := "Boulder",
    "Tompkins County" := "Ithaca",
    "Centre County" := "State College",
    "Alachua County" := "Gainesville",
    "Orange County" := "Chapel Hill",
    "Lafayette County" := "Oxford",
    "Oktibbeha County" := "Starkville",
    "El Paso County" := "El Paso",
    "Bell County" := "Killeen/Fort Hood",
    "Cumberland County" := "Fayetteville",
    "Christian County" := "Clarksville",
    "Comanche County" := "Lawton",
    "Muscogee County" := "Columbus",
    "Liberty County" := "Hinesville",
    "Onslow County" := "Jacksonville",
    "Norfolk city" := "Norfolk",
    "Virginia Beach city" := "Virginia Beach",
    "Pierce County" := "Tacoma"
  ]

  /** `County.map(county_cities)` filled with `County.str.replace(' County', '')`: the table's city on an exact match of the full name, else the name without " County"; missing with a missing county. */
  function CityOf(county: Option<string>): (c: Option<string>)
  {
    match county
    case None => None
    case Some(name) => if name in CountyCities then Some(CountyCities[name]) else Some(Replace(name, " County", ""))
  }

  /** `City + ', ' + State_Abbr`: missing when the city is. */
  function CityState(city: Option<string>, abbr: string): (s: Option<string>)
  {
    if city.Some? then Some(city.value + ", " + abbr) else None
  }

  /**
   * The city is missing exactly when the county is; a county named in the table gets its
   * city; any other county gets its name back without " County", which is never longer and
   * is the name itself when the name does not contain " County".
   */
  lemma CityOfSpec(county: Option<string>)
    ensures CityOf(county).None? <==> county.None?
    ensures county.Some? && county.value in CountyCities ==> CityOf(county) == Some(CountyCities[county.value])
    ensures county.Some? && county.value !in CountyCities ==>
              |CityOf(county).value| <= |county.value| &&
              (!Contains(county.value, " County") ==> CityOf(county) == county)
  {
    if county.Some? && county.value !in CountyCities {
      RemoveShortens(county.value, " County");
      if !Contains(county.value, " County") {
        ReplaceAbsent(county.value, " County", "");
      }
    }
  }

  /** The label is the city, a comma and a space, then the state abbreviation. */
  lemma CityStateSpec(city: Option<string>, abbr: string)
    ensures CityState(city, abbr).Some? <==> city.Some?
    ensures city.Some? ==>
              CityState(city, abbr).value[..|city.value|] == city.value &&
              CityState(city, abbr).value[|city.value|..] == ", " + abbr
  {
  }

  /** One row of the approximate-city table. */
  datatype CityRow = CityRow(tract: string, county: Option<string>, abbr: string, city: Option<string>, cityState: Option<string>)

  /** quick_county_to_city_mapping without the file handling: the City and City_State columns added to every row. */
  function QuickCityMapping(rows: seq<Tract>): (r: seq<CityRow>)
    ensures |r| == |rows|
  {
    seq(|rows|, i requires 0 <= i < |rows| =>
      var city := CityOf(rows[i].county);
      CityRow(rows[i].id, rows[i].county, rows[i].stateAbbr, city, CityState(city, rows[i].stateAbbr)))
  }

  /**
   * The mapping keeps every row, in order: row i describes input row i, its City is the
   * table's city or the county-name fallback, and its City_State is that city followed by the
   * row's state abbreviation.
   */
  lemma QuickCityMappingSpec(rows: seq<Tract>)
    ensures var r := QuickCityMapping(rows);
      |r| == |rows| &&
      forall i :: 0 <= i < |rows| ==>
        r[i].tract == rows[i].id && r[i].county == rows[i].county && r[i].abbr == rows[i].stateAbbr &&
        (r[i].city.None? <==> rows[i].county.None?) &&
        (rows[i].county.Some? && rows[i].county.value in CountyCities ==>
           r[i].city == Some(CountyCities[rows[i].county.value])) &&
        (r[i].city.Some? ==> r[i].cityState == Some(r[i].city.value + ", " + rows[i].stateAbbr))
  {
    forall i | 0 <= i < |rows|
      ensures CityOf(rows[i].county).None? <==> rows[i].county.None?
    {
      CityOfSpec(rows[i].county);
    }
  }
}
