// The list of resilient LILA communities and its summaries: the selection against a
// threshold taken over all model rows, the Urban/Rural label, the descending sort, the
// state and county summaries, the first-match college and military lists, and the
// counties with at least three resilient tracts.

module ExtractAllResilient {
  import opened Wrappers
  import opened Text
  import opened Seqs
  import opened Tracts

  // ---------------------------------------------------------------- selection and order

  /** The selection mask: LILATracts_1And10 == 1 and a score strictly above threshold_90. */
  function Selected(threshold: real): Tract -> bool
  {
    (t: Tract) => IsLila(t) && Above(t.score, threshold)
  }

  /**
   * The output list: merged rows that are LILA and score strictly above the threshold, which
   * is the 0.9 quantile over all model rows (LILA or not), sorted by score, highest first.
   */
  function ResilientCommunities(merged: seq<Tract>, threshold: real): seq<Tract>
  {
    SortDesc(Filter(merged, Selected(threshold)), ScoreKey)
  }

  /**
   * The output holds exactly the selected rows, each as often as in the input, with its score
   * present and above the threshold, in non-increasing score order.
   */
  lemma ResilientCommunitiesSpec(merged: seq<Tract>, threshold: real)
    ensures var out := ResilientCommunities(merged, threshold);
      (forall t :: t in out <==> t in merged && IsLila(t) && Above(t.score, threshold)) &&
      multiset(out) == multiset(Filter(merged, Selected(threshold))) &&
      |out| == Count(merged, Selected(threshold)) &&
      (forall i :: 0 <= i < |out| ==> out[i].score.Some? && out[i].score.value > threshold) &&
      (forall i, j :: 0 <= i < j < |out| ==> out[i].score.value >= out[j].score.value)
  {
    var sel := Filter(merged, Selected(threshold));
    var out := ResilientCommunities(merged, threshold);
    FilterSpec(merged, Selected(threshold));
    MultisetMembers(out, sel);
    forall i | 0 <= i < |out|
      ensures out[i].score.Some? && out[i].score.value > threshold
    {
      assert out[i] in sel;
    }
    forall i, j | 0 <= i < j < |out|
      ensures out[i].score.value >= out[j].score.value
    {
      assert ScoreKey(out[i]) >= ScoreKey(out[j]);
    }
  }

  // ---------------------------------------------------------------- state summary

  /** The groupby key (State, State_Abbr); a missing State puts the row in no group. */
  function StateKey(t: Tract): Option<(string, string)>
  {
    if t.state.Some? then Some((t.state.value, t.stateAbbr)) else None
  }

  /** Urban_Rural == 'Urban'. */
  predicate UrbanType(t: Tract)
  {
    TypeLabel(t) == "Urban"
  }

  /** One row of the state summary (the mean score is left out). */
  datatype StateRow = StateRow(state: string, abbr: string, count: nat, urbanCount: nat, ruralCount: int)

  function StateRowOf(g: Group<(string, string)>): StateRow
  {
    StateRow(g.key.0, g.key.1, g.count, g.hits, g.count - g.hits)
  }

  function StateRowCount(r: StateRow): real
  {
    r.count as real
  }

  /** groupby([State, State_Abbr]) with Count and Urban_Count, Rural_Count = Count - Urban_Count, sorted by Count descending. */
  function StateSummary(out: seq<Tract>): seq<StateRow>
  {
    SortDesc(StateRows(out), StateRowCount)
  }

  /** The summary row of a group is that group's count and Urban count, split into Urban and Rural. */
  predicate StateRowFits(r: StateRow, out: seq<Tract>)
  {
    r.count == KeyCount(out, StateKey, (r.state, r.abbr)) && 1 <= r.count &&
    r.urbanCount == KeyHits(out, StateKey, UrbanType, (r.state, r.abbr)) &&
    r.urbanCount <= r.count && r.ruralCount == r.count - r.urbanCount && r.ruralCount >= 0
  }

  /** The group a summary row stands for. */
  function GroupOf(r: StateRow): (string, string)
  {
    (r.state, r.abbr)
  }

  /** The summary rows before sorting. */
  function StateRows(out: seq<Tract>): seq<StateRow>
  {
    var groups := GroupBy(out, StateKey, UrbanType);
    seq(|groups|, i requires 0 <= i < |groups| => StateRowOf(groups[i]))
  }

  /** Some summary row stands for the group key. */
  predicate HasGroup(rows: seq<StateRow>, key: (string, string))
  {
    exists i :: 0 <= i < |rows| && GroupOf(rows[i]) == key
  }

  /** Before sorting: one row per group present, in groupby order, each fitting its group. */
  lemma StateRowsSpec(out: seq<Tract>)
    ensures var rows := StateRows(out);
      (forall i :: 0 <= i < |rows| ==> StateRowFits(rows[i], out)) &&
      (forall i, j :: 0 <= i < j < |rows| ==> GroupOf(rows[i]) != GroupOf(rows[j])) &&
      (forall key :: HasGroup(rows, key) <==> HasKey(out, StateKey, key))
  {
    var groups := GroupBy(out, StateKey, UrbanType);
    var rows := StateRows(out);
    assert forall i :: 0 <= i < |rows| ==> GroupOf(rows[i]) == groups[i].key;
  }

  /**
   * One row per (State, State_Abbr) present in the output, none for a row without State;
   * each with its tract count, Urban_Count <= Count and Rural_Count = Count - Urban_Count;
   * rows in non-increasing Count order.
   */
  lemma StateSummarySpec(out: seq<Tract>)
    ensures var r := StateSummary(out);
      (forall i :: 0 <= i < |r| ==> StateRowFits(r[i], out)) &&
      (forall i, j :: 0 <= i < j < |r| ==> r[i].count >= r[j].count) &&
      (forall i, j :: 0 <= i < j < |r| ==> GroupOf(r[i]) != GroupOf(r[j])) &&
      (forall key :: HasGroup(r, key) <==> HasKey(out, StateKey, key))
  {
    StateRowsSpec(out);
    StateSummaryRows(out);
    SameGroups(StateRows(out), StateSummary(out));
  }

  /** The sorted rows each fit their group, in non-increasing Count order, one per group. */
  lemma StateSummaryRows(out: seq<Tract>)
    ensures var r := StateSummary(out);
      (forall i :: 0 <= i < |r| ==> StateRowFits(r[i], out)) &&
      (forall i, j :: 0 <= i < j < |r| ==> r[i].count >= r[j].count) &&
      (forall i, j :: 0 <= i < j < |r| ==> GroupOf(r[i]) != GroupOf(r[j]))
  {
    var rows := StateRows(out);
    var r := StateSummary(out);
    StateRowsSpec(out);
    MultisetMembers(r, rows);
    forall i | 0 <= i < |r|
      ensures StateRowFits(r[i], out)
    {
      assert r[i] in rows;
    }
    forall i, j | 0 <= i < j < |r|
      ensures r[i].count >= r[j].count
    {
      assert StateRowCount(r[i]) >= StateRowCount(r[j]);
    }
    forall i, j | 0 <= i < j < |r|
      ensures GroupOf(r[i]) != GroupOf(r[j])
    {
      SummaryKeysDistinct(rows, r, i, j);
    }
  }

  /** Reordering summary rows keeps the groups they stand for. */
  lemma SameGroups(rows: seq<StateRow>, r: seq<StateRow>)
    requires multiset(r) == multiset(rows)
    ensures forall key :: HasGroup(r, key) <==> HasGroup(rows, key)
  {
    MultisetMembers(r, rows);
    forall key
      ensures HasGroup(r, key) <==> HasGroup(rows, key)
    {
      if HasGroup(r, key) {
        var i :| 0 <= i < |r| && GroupOf(r[i]) == key;
        assert r[i] in rows;
        var j :| 0 <= j < |rows| && rows[j] == r[i];
      }
      if HasGroup(rows, key) {
        var j :| 0 <= j < |rows| && GroupOf(rows[j]) == key;
        assert rows[j] in r;
        var i :| 0 <= i < |r| && r[i] == rows[j];
      }
    }
  }

  /** Reordering rows with distinct groups keeps the groups distinct. */
  lemma SummaryKeysDistinct(rows: seq<StateRow>, r: seq<StateRow>, i: int, j: int)
    requires forall a, b :: 0 <= a < b < |rows| ==> GroupOf(rows[a]) != GroupOf(rows[b])
    requires multiset(r) == multiset(rows)
    requires 0 <= i < j < |r|
    ensures GroupOf(r[i]) != GroupOf(r[j])
  {
    DistinctMultiset(rows, r, i, j);
    MultisetMembers(r, rows);
    assert r[i] in rows && r[j] in rows;
    var a :| 0 <= a < |rows| && rows[a] == r[i];
    var b :| 0 <= b < |rows| && rows[b] == r[j];
    if a < b {
      assert GroupOf(rows[a]) != GroupOf(rows[b]);
    } else if b < a {
      assert GroupOf(rows[b]) != GroupOf(rows[a]);
    }
  }

  // ---------------------------------------------------------------- county summary and city lookup

  /** The groupby key (County, State); a row missing either is in no group. */
  function CountyKey(t: Tract): Option<(string, string)>
  {
    if t.county.Some? && t.state.Some? then Some((t.county.value, t.state.value)) else None
  }

  /** Every row of a county group is counted. */
  predicate AnyRow(t: Tract)
  {
    true
  }

  /** One county group with its tract count (the mean score and population sum are left out). */
  datatype CountyRow = CountyRow(county: string, state: string, tracts: nat)

  function CountyRowOf(g: Group<(string, string)>): CountyRow
  {
    CountyRow(g.key.0, g.key.1, g.count)
  }

  function CountyRowTracts(r: CountyRow): real
  {
    r.tracts as real
  }

  /** The county groups with their tract counts, in first-appearance order. */
  function CountyGroups(out: seq<Tract>): (r: seq<CountyRow>)
  {
    var groups := GroupBy(out, CountyKey, AnyRow);
    seq(|groups|, i requires 0 <= i < |groups| => CountyRowOf(groups[i]))
  }

  /** Every county group carries its own row count, which is at least 1. */
  lemma CountyGroupsSpec(out: seq<Tract>)
    ensures forall r :: r in CountyGroups(out) ==>
              r.tracts == KeyCount(out, CountyKey, (r.county, r.state)) && r.tracts >= 1
  {
  }

  /** county_summary: the 30 counties with the most resilient tracts, sorted by Tract_Count descending. */
  function TopCounties(out: seq<Tract>): seq<CountyRow>
  {
    Largest(CountyGroups(out), 30, CountyRowTracts)
  }

  /** At most 30 rows, in non-increasing Tract_Count order, each a county group with its count; no county left out has more tracts than one kept. */
  lemma TopCountiesSpec(out: seq<Tract>)
    ensures var top := TopCounties(out);
      |top| <= 30 &&
      (forall i, j :: 0 <= i < j < |top| ==> top[i].tracts >= top[j].tracts) &&
      (forall r :: r in top ==> r in CountyGroups(out)) &&
      (forall r :: r in top ==> r.tracts == KeyCount(out, CountyKey, (r.county, r.state)) && r.tracts >= 1) &&
      (forall x, y :: x in top && y in multiset(CountyGroups(out)) - multiset(top) ==> x.tracts >= y.tracts)
  {
    CountyGroupsSpec(out);
    TopRowsOrdered(CountyGroups(out), 30);
  }

  /** The n largest county rows by Tract_Count: sorted, drawn from the input, none left out larger. */
  lemma TopRowsOrdered(all: seq<CountyRow>, n: nat)
    ensures var top := Largest(all, n, CountyRowTracts);
      |top| <= n &&
      (forall i, j :: 0 <= i < j < |top| ==> top[i].tracts >= top[j].tracts) &&
      (forall r :: r in top ==> r in all) &&
      (forall x, y :: x in top && y in multiset(all) - multiset(top) ==> x.tracts >= y.tracts)
  {
    var top := Largest(all, n, CountyRowTracts);
    forall i, j | 0 <= i < j < |top|
      ensures top[i].tracts >= top[j].tracts
    {
      assert CountyRowTracts(top[i]) >= CountyRowTracts(top[j]);
    }
    forall r | r in top
      ensures r in all
    {
      assert r in multiset(top);
    }
    forall x, y | x in top && y in multiset(all) - multiset(top)
      ensures x.tracts >= y.tracts
    {
      assert CountyRowTracts(x) >= CountyRowTracts(y);
    }
  }

  /** Tract count of at least 3. */
  predicate MultiTract(r: CountyRow)
  {
    r.tracts >= 3
  }

  /** create_city_lookup: county groups by size, descending, keeping those of at least 3 tracts. */
  function CityLookup(out: seq<Tract>): seq<CountyRow>
  {
    Filter(SortDesc(CountyGroups(out), CountyRowTracts), MultiTract)
  }

  /** The lookup lists exactly the county groups of at least 3 tracts, in non-increasing size order. */
  lemma CityLookupSpec(out: seq<Tract>)
    ensures var c := CityLookup(out);
      (forall r :: r in c <==> r in CountyGroups(out) && r.tracts >= 3) &&
      (forall i, j :: 0 <= i < j < |c| ==> c[i].tracts >= c[j].tracts)
  {
    var sorted := SortDesc(CountyGroups(out), CountyRowTracts);
    var c := CityLookup(out);
    MultisetMembers(sorted, CountyGroups(out));
    FilterSpec(sorted, MultiTract);
    FilterSortedDesc(sorted, MultiTract, CountyRowTracts);
    forall i, j | 0 <= i < j < |c|
      ensures c[i].tracts >= c[j].tracts
    {
      assert CountyRowTracts(c[i]) >= CountyRowTracts(c[j]);
    }
  }

  // ---------------------------------------------------------------- college and military lists

  /** College counties and their institutions, in dict order. */
  const CollegeTable: seq<(string, string)> := [
    ("Washtenaw", "University of Michigan"), ("Centre", "Penn State"), ("Story", "Iowa State"),
    ("Tippecanoe", "Purdue"), ("Clarke", "University of Georgia"), ("Orange", "UNC Chapel Hill"),
    ("Alachua", "University of Florida"), ("Dane", "UW Madison"), ("Boulder", "CU Boulder"),
    ("Tompkins", "Cornell"), ("Lafayette", "Ole Miss"), ("Riley", "Kansas State"),
    ("Oktibbeha", "Mississippi State"), ("Lee", "Auburn"), ("Brazos", "Texas A&M")
  ]

  /** Military counties and their bases, in dict order. */
  const MilitaryTable: seq<(string, string)> := [
    ("El Paso", "Fort Bliss"), ("Bell", "Fort Hood"), ("Cumberland", "Fort Bragg"), ("Hardin", "Fort Knox"),
    ("Christian", "Fort Campbell"), ("Comanche", "Fort Sill"), ("Muscogee", "Fort Benning"),
    ("Liberty", "Fort Stewart"), ("Onslow", "Camp Lejeune"), ("San Diego", "Multiple bases"),
    ("Norfolk", "Naval Station Norfolk"), ("Pierce", "Joint Base Lewis-McChord")
  ]

  /** The first table entry, in table order, whose county key occurs in the county name. */
  function FirstKey(county: string, table: seq<(string, string)>): (r: Option<nat>)
    ensures r.Some? ==> r.value < |table| && Contains(county, table[r.value].0) &&
                        forall k :: 0 <= k < r.value ==> !Contains(county, table[k].0)
    ensures r.None? ==> forall k :: 0 <= k < |table| ==> !Contains(county, table[k].0)
  {
    if table == [] then None
    else if Contains(county, table[0].0) then Some(0)
    else
      var rest := FirstKey(county, table[1..]);
      assert forall k :: 1 <= k < |table| ==> table[k] == table[1..][k - 1];
      if rest.Some? then Some(rest.value + 1) else None
  }

  /** One entry of potential_college or potential_military. */
  datatype Entry = Entry(tract: string, county: string, state: Option<string>, institution: string, resilience: Num)

  /** The entry a row contributes to a list, if its county matches a key of the table. */
  function EntryOf(t: Tract, county: string, table: seq<(string, string)>): (e: Option<Entry>)
  {
    match FirstKey(county, table)
    case Some(k) => Some(Entry(t.id, county, t.state, table[k].1, t.score))
    case None => None
  }

  /** The entries rows contribute to one list, in row order, as intended: a missing county matches no key. */
  function Entries(rows: seq<Tract>, table: seq<(string, string)>): seq<Entry>
  {
    if rows == [] then []
    else
      var prev := Entries(rows[..|rows| - 1], table);
      var t := rows[|rows| - 1];
      var e := if t.county.Some? then EntryOf(t, t.county.value, table) else None;
      if e.Some? then prev + [e.value] else prev
  }

  /** The same lists as written: `county_key in row['County']` raises TypeError on a missing (float NaN) County. */
  function EntriesAsWritten(rows: seq<Tract>, college: seq<(string, string)>, military: seq<(string, string)>): Result<(seq<Entry>, seq<Entry>), string>
  {
    if rows == [] then Success(([], []))
    else
      var prev := EntriesAsWritten(rows[..|rows| - 1], college, military);
      var t := rows[|rows| - 1];
      if prev.Failure? then prev
      else if t.county.None? then Failure("TypeError: argument of type 'float' is not iterable")
      else
        var c := EntryOf(t, t.county.value, college);
        var m := EntryOf(t, t.county.value, military);
        Success((prev.value.0 + (if c.Some? then [c.value] else []),
                 prev.value.1 + (if m.Some? then [m.value] else [])))
  }

  /** A row with a county mask for the entry count. */
  function Matches(table: seq<(string, string)>): Tract -> bool
  {
    (t: Tract) => t.county.Some? && FirstKey(t.county.value, table).Some?
  }

  /**
   * Each row contributes at most one entry per list, carrying the institution of the first
   * matching key in table order; the list has exactly one entry per matching row, in row order.
   */
  lemma {:induction false} EntriesSpec(rows: seq<Tract>, table: seq<(string, string)>)
    ensures |Entries(rows, table)| == Count(rows, Matches(table)) <= |rows|
    ensures forall e :: e in Entries(rows, table) ==>
              exists i :: 0 <= i < |rows| && rows[i].county.Some? && EntryOf(rows[i], rows[i].county.value, table) == Some(e)
  {
    if rows != [] {
      var pre := rows[..|rows| - 1];
      var t := rows[|rows| - 1];
      EntriesSpec(pre, table);
      assert rows == pre + [t];
      FilterAppend(pre, [t], Matches(table));
      assert Filter([t], Matches(table)) == if Matches(table)(t) then [t] else [];
      forall e | e in Entries(rows, table)
        ensures exists i :: 0 <= i < |rows| && rows[i].county.Some? && EntryOf(rows[i], rows[i].county.value, table) == Some(e)
      {
        if e in Entries(pre, table) {
          var i :| 0 <= i < |pre| && pre[i].county.Some? && EntryOf(pre[i], pre[i].county.value, table) == Some(e);
          assert rows[i] == pre[i];
        } else {
          assert rows[|rows| - 1] == t;
        }
      }
    }
  }

  /** Where every county is present the two definitions agree: the intended lists are the lists as written. */
  lemma {:induction false} EntriesAgree(rows: seq<Tract>, college: seq<(string, string)>, military: seq<(string, string)>)
    requires forall i :: 0 <= i < |rows| ==> rows[i].county.Some?
    ensures EntriesAsWritten(rows, college, military) == Success((Entries(rows, college), Entries(rows, military)))
  {
    if rows != [] {
      var pre := rows[..|rows| - 1];
      assert forall i :: 0 <= i < |pre| ==> pre[i] == rows[i];
      var t := rows[|rows| - 1];
      EntriesAgree(pre, college, military);
      var c := EntryOf(t, t.county.value, college);
      var m := EntryOf(t, t.county.value, military);
      assert Entries(rows, college) == Entries(pre, college) + (if c.Some? then [c.value] else []);
      assert Entries(rows, military) == Entries(pre, military) + (if m.Some? then [m.value] else []);
    }
  }

  /** A resilient LILA row whose FARA County cell is empty stops the script as written. */
  lemma MissingCountyFails(t: Tract)
    requires t.county.None?
    ensures EntriesAsWritten([t], CollegeTable, MilitaryTable).Failure?
    ensures Entries([t], CollegeTable) == [] && Entries([t], MilitaryTable) == []
  {
    assert [t][..0] == [];
  }

  /**
   * The loop over the output rows: for each row, the first college key in dict order that
   * occurs in its County (then break), and likewise for the military keys; a missing County
   * matches nothing.
   */
  method SpecialCounties(out: seq<Tract>) returns (college: seq<Entry>, military: seq<Entry>)
    ensures college == Entries(out, CollegeTable) && military == Entries(out, MilitaryTable)
  {
    college, military := [], [];
    for i := 0 to |out|
      invariant college == Entries(out[..i], CollegeTable)
      invariant military == Entries(out[..i], MilitaryTable)
    {
      var row := out[i];
      assert out[..i + 1][..i] == out[..i] && out[..i + 1][i] == row;
      if row.county.Some? {
        var county := row.county.value;
        var c := FirstMatch(county, CollegeTable);
        if c.Some? {
          college := college + [Entry(row.id, county, row.state, CollegeTable[c.value].1, row.score)];
        }
        var m := FirstMatch(county, MilitaryTable);
        if m.Some? {
          military := military + [Entry(row.id, county, row.state, MilitaryTable[m.value].1, row.score)];
        }
      }
    }
    assert out[..|out|] == out;
  }

  /** The inner `for county_key, ... in table.items(): if county_key in county: ...; break`. */
  method FirstMatch(county: string, table: seq<(string, string)>) returns (k: Option<nat>)
    ensures k == FirstKey(county, table)
  {
    for i := 0 to |table|
      invariant forall j :: 0 <= j < i ==> !Contains(county, table[j].0)
    {
      if Contains(county, table[i].0) {
        return Some(i);
      }
    }
    return None;
  }
}
