/** The discrete half of ExpectedBurden: the FARA lookup map, the sorted state list, the join of the
    burdened table with FARA, the design rows with their state dummies, and the shape of the model table.
    The least-squares fit itself is not modelled: its residuals and scores enter as parameters, and the
    float parser and formatter are parameters too. */
module ExpectedModel {
  import opened Wrappers
  import opened Text
  import opened Seqs
  import opened Headers

  type Row = seq<string>
  type Table = seq<Row>

  /** The two model switches of the configuration. */
  datatype ModelConfig = ModelConfig(includeNoVehicle: bool, stateFixedEffects: bool)

  /** btoi: 1 for true, 0 for false. */
  function Btoi(b: bool): (n: nat)
    ensures n <= 1
    ensures n == 1 <==> b
  {
    if b then 1 else 0
  }

  /** Every row is at least as long as the non-empty header, so a read at a header position is in range. */
  predicate Readable(t: Table)
  {
    t != [] ==> |t[0]| > 0 && forall i :: 0 <= i < |t| ==> |t[i]| >= |t[0]|
  }

  /** The cell at position k, or "" past the end of the row. */
  function At(r: Row, k: nat): string
  {
    if k < |r| then r[k] else ""
  }

  /** The FARA column that keys the lookup: GEOID when the header has it, else CensusTract, else none. */
  function KeyColumn(fh: map<string, nat>): Option<nat>
  {
    if "GEOID" in fh then Some(fh["GEOID"])
    else if "CensusTract" in fh then Some(fh["CensusTract"])
    else None
  }

  /** The key a FARA row is filed under: its key cell, or "" when there is no key column. */
  function RowKey(r: Row, key: Option<nat>): string
  {
    if key.Some? then At(r, key.value) else ""
  }

  /** The FARA lookup after the data rows, in order: a row with an empty key is skipped, and a later row
      with the same key replaces the earlier one. */
  function FaraMap(data: Table, key: Option<nat>): (m: map<string, Row>)
    ensures "" !in m
  {
    if data == [] then map[]
    else
      var m := FaraMap(data[..|data| - 1], key);
      var g := RowKey(data[|data| - 1], key);
      if g != "" then m[g := data[|data| - 1]] else m
  }

  /** Row i is the last of data filed under k. */
  predicate LastFiled(data: Table, key: Option<nat>, k: string, i: int)
  {
    0 <= i < |data| && RowKey(data[i], key) == k && forall j :: i < j < |data| ==> RowKey(data[j], key) != k
  }

  /** The keys are exactly the non-empty keys of the rows, and a key maps to the LAST row filed under it. */
  lemma FaraMapSpec(data: Table, key: Option<nat>)
    ensures forall k :: k in FaraMap(data, key) <==>
              k != "" && exists i :: 0 <= i < |data| && RowKey(data[i], key) == k
    ensures forall k :: k in FaraMap(data, key) ==>
              exists i :: LastFiled(data, key, k, i) && FaraMap(data, key)[k] == data[i]
  {
    FaraMapKeys(data, key);
    FaraMapLast(data, key);
  }

  lemma {:induction false} FaraMapKeys(data: Table, key: Option<nat>)
    ensures forall k :: k in FaraMap(data, key) <==>
              k != "" && exists i :: 0 <= i < |data| && RowKey(data[i], key) == k
  {
    if data != [] {
      var n := |data| - 1;
      var pre := data[..n];
      FaraMapKeys(pre, key);
      var g := RowKey(data[n], key);
      assert FaraMap(data, key) == if g != "" then FaraMap(pre, key)[g := data[n]] else FaraMap(pre, key);
      forall k | k in FaraMap(data, key)
        ensures exists i :: 0 <= i < |data| && RowKey(data[i], key) == k
      {
        if k != g {
          var i :| 0 <= i < |pre| && RowKey(pre[i], key) == k;
          assert RowKey(data[i], key) == k;
        }
      }
      forall i | 0 <= i < |data| && RowKey(data[i], key) != ""
        ensures RowKey(data[i], key) in FaraMap(data, key)
      {
        if i < n {
          assert RowKey(pre[i], key) == RowKey(data[i], key);
        }
      }
    }
  }

  lemma {:induction false} FaraMapLast(data: Table, key: Option<nat>)
    ensures forall k :: k in FaraMap(data, key) ==>
              exists i :: LastFiled(data, key, k, i) && FaraMap(data, key)[k] == data[i]
  {
    if data != [] {
      var n := |data| - 1;
      var pre := data[..n];
      FaraMapLast(pre, key);
      var g := RowKey(data[n], key);
      assert FaraMap(data, key) == if g != "" then FaraMap(pre, key)[g := data[n]] else FaraMap(pre, key);
      forall k | k in FaraMap(data, key)
        ensures exists i :: LastFiled(data, key, k, i) && FaraMap(data, key)[k] == data[i]
      {
        if k == g {
          assert LastFiled(data, key, k, n);
        } else {
          var i :| LastFiled(pre, key, k, i) && FaraMap(pre, key)[k] == pre[i];
          assert pre[i] == data[i];
          forall j | i < j < |data|
            ensures RowKey(data[j], key) != k
          {
            if j < n {
              assert pre[j] == data[j];
            }
          }
          assert LastFiled(data, key, k, i);
        }
      }
    }
  }

  /** Every row in the lookup is one of the data rows, so it is as long as they are. */
  lemma FaraMapRows(data: Table, key: Option<nat>, width: nat)
    requires forall i :: 0 <= i < |data| ==> |data[i]| >= width
    ensures forall k :: k in FaraMap(data, key) ==> |FaraMap(data, key)[k]| >= width
  {
    FaraMapLast(data, key);
  }

  /** Every data row has a cell at position k. */
  predicate Reaches(data: Table, k: nat)
  {
    forall i :: 0 <= i < |data| ==> k < |data[i]|
  }

  /** Every row in the lookup is filed under its own key cell. */
  lemma FaraMapKeyed(data: Table, key: Option<nat>)
    ensures forall t :: t in FaraMap(data, key) ==>
              key.Some? && key.value < |FaraMap(data, key)[t]| && FaraMap(data, key)[t][key.value] == t
  {
    FaraMapLast(data, key);
  }

  /** The loop over the FARA data rows that fills fmap. A row too short for the key column stops it with
      None, where Go panics. */
  method BuildFaraMap(fara: Table, key: Option<nat>) returns (fmap: Option<map<string, Row>>)
    requires fara != []
    ensures fmap.Some? <==> key.None? || Reaches(fara[1..], key.value)
    ensures fmap.Some? ==> fmap.value == FaraMap(fara[1..], key)
  {
    var m := map[];
    var i := 1;
    while i < |fara|
      invariant 1 <= i <= |fara|
      invariant m == FaraMap(fara[1..i], key)
      invariant key.Some? ==> Reaches(fara[1..i], key.value)
    {
      var geoid := "";
      if key.Some? {
        if key.value >= |fara[i]| {
          assert fara[1..][i - 1] == fara[i];
          return None;
        }
        geoid := fara[i][key.value];
      }
      assert fara[1..i + 1][..i - 1] == fara[1..i];
      assert fara[1..i + 1][i - 1] == fara[i];
      if geoid != "" {
        m := m[geoid := fara[i]];
      }
      i := i + 1;
    }
    assert fara[1..i] == fara[1..];
    return Some(m);
  }

  /** The cells at position k of every row. */
  function Column(data: Table, k: nat): (r: seq<string>)
    ensures |r| == |data|
    ensures forall i :: 0 <= i < |data| ==> r[i] == At(data[i], k)
  {
    seq(|data|, i requires 0 <= i < |data| => At(data[i], k))
  }

  /** stateList: the distinct states of the data rows, sorted. */
  function StateList(data: Table, k: nat): seq<string>
  {
    SortStrings(Distinct(Column(data, k)))
  }

  /** The state list is strictly increasing (hence duplicate-free), holds exactly the states that occur,
      and is non-empty as soon as there is a data row. */
  lemma StateListSpec(data: Table, k: nat)
    ensures StrictlySorted(StateList(data, k))
    ensures forall s :: s in StateList(data, k) <==> exists i :: 0 <= i < |data| && At(data[i], k) == s
    ensures |StateList(data, k)| <= |data|
    ensures data != [] ==> StateList(data, k) != []
  {
    var col := Column(data, k);
    var d := Distinct(col);
    SortDistinctIsStrict(d);
    MultisetMembers(SortStrings(d), d);
    ColumnMembers(data, k);
    if data != [] {
      assert col[0] in d;
    }
  }

  /** The states in a column are the cells at that position. */
  lemma ColumnMembers(data: Table, k: nat)
    ensures forall s :: s in Column(data, k) <==> exists i :: 0 <= i < |data| && At(data[i], k) == s
  {
    forall s
      ensures s in Column(data, k) <==> exists i :: 0 <= i < |data| && At(data[i], k) == s
    {
      if s in Column(data, k) {
        var i :| 0 <= i < |data| && Column(data, k)[i] == s;
      }
    }
  }

  /** The loops at the top of ExpectedBurden: the set of states of the data rows, copied out in map order
      and sorted with sort.Strings. A data row too short for the state column stops them with None. */
  method CollectStates(burdened: Table, k: nat) returns (stateList: Option<seq<string>>)
    requires burdened != []
    ensures stateList.Some? <==> Reaches(burdened[1..], k)
    ensures stateList.Some? ==> stateList.value == StateList(burdened[1..], k)
  {
    var states := StateSet(burdened, k);
    if states.None? {
      return None;
    }
    var list := SetToList(states.value);
    SortedStates(list, burdened[1..], k);
    return Some(SortStrings(list));
  }

  /** The loop collecting the state of every data row into a set; None where Go reads past a row's end. */
  method StateSet(burdened: Table, k: nat) returns (states: Option<set<string>>)
    requires burdened != []
    ensures states.Some? <==> Reaches(burdened[1..], k)
    ensures states.Some? ==> forall s :: s in states.value <==> s in Column(burdened[1..], k)
  {
    var seen := {};
    var i := 1;
    while i < |burdened|
      invariant 1 <= i <= |burdened|
      invariant forall j :: 1 <= j < i ==> k < |burdened[j]|
      invariant forall s :: s in seen <==> exists j :: 1 <= j < i && burdened[j][k] == s
    {
      if k >= |burdened[i]| {
        assert burdened[1..][i - 1] == burdened[i];
        return None;
      }
      seen := seen + {burdened[i][k]};
      i := i + 1;
    }
    ghost var col := Column(burdened[1..], k);
    forall s
      ensures s in seen <==> s in col
    {
      if s in seen {
        var j :| 1 <= j < |burdened| && burdened[j][k] == s;
        assert col[j - 1] == s;
      }
      if s in col {
        var j :| 0 <= j < |col| && col[j] == s;
        assert burdened[j + 1][k] == s;
      }
    }
    assert forall j :: 0 <= j < |burdened[1..]| ==> burdened[1..][j] == burdened[j + 1];
    return Some(seen);
  }

  /** The loop copying a set into a list, in whatever order the map iteration yields. */
  method SetToList(states: set<string>) returns (list: seq<string>)
    ensures forall a, b :: 0 <= a < b < |list| ==> list[a] != list[b]
    ensures forall s :: s in list <==> s in states
  {
    list := [];
    var left := states;
    while left != {}
      invariant left <= states
      invariant forall s :: s in list <==> s in states && s !in left
      invariant forall a, b :: 0 <= a < b < |list| ==> list[a] != list[b]
      decreases |left|
    {
      var s :| s in left;
      list := list + [s];
      left := left - {s};
    }
  }

  /** Sorting any duplicate-free list of the states gives the state list: the iteration order of the set
      does not matter. */
  lemma SortedStates(list: seq<string>, data: Table, k: nat)
    requires forall a, b :: 0 <= a < b < |list| ==> list[a] != list[b]
    requires forall s :: s in list <==> s in Column(data, k)
    ensures SortStrings(list) == StateList(data, k)
  {
    var d := Distinct(Column(data, k));
    SortDistinctIsStrict(list);
    SortDistinctIsStrict(d);
    var r := SortStrings(list);
    var q := StateList(data, k);
    MultisetMembers(r, list);
    MultisetMembers(q, d);
    forall x
      ensures x in r <==> x in q
    {
      assert x in r <==> x in list;
      assert x in list <==> x in Column(data, k);
      assert x in Column(data, k) <==> x in d;
      assert x in d <==> x in q;
    }
    StrictlySortedUnique(r, q);
  }

  /** The dummy block for a row of state st: one entry per state after the baseline stateList[0], 1.0 at
      st's position and 0.0 elsewhere. */
  function Dummies(st: string, stateList: seq<string>): (d: seq<real>)
    ensures |d| == if stateList == [] then 0 else |stateList| - 1
  {
    if stateList == [] then []
    else seq(|stateList| - 1, i requires 0 <= i < |stateList| - 1 => if st == stateList[i + 1] then 1.0 else 0.0)
  }

  /** In a strictly sorted state list, a row of the k-th state (k >= 1) has its single 1.0 at position
      k - 1 of its dummy block, and a row of the baseline state, or of a state not in the list, has only
      zeros. */
  lemma DummiesSpec(st: string, stateList: seq<string>)
    requires StrictlySorted(stateList)
    ensures forall k :: 1 <= k < |stateList| && st == stateList[k] ==>
              forall j :: 0 <= j < |stateList| - 1 ==> Dummies(st, stateList)[j] == if j == k - 1 then 1.0 else 0.0
    ensures (stateList != [] && st == stateList[0]) || st !in stateList ==>
              forall j :: 0 <= j < |Dummies(st, stateList)| ==> Dummies(st, stateList)[j] == 0.0
  {
    forall k, m | 1 <= k < |stateList| && st == stateList[k] && 1 <= m < |stateList| && m != k
      ensures stateList[m] != st
    {
      LessIrreflexive(st);
    }
    if stateList != [] && st == stateList[0] {
      forall m | 1 <= m < |stateList|
        ensures stateList[m] != st
      {
        LessIrreflexive(st);
      }
    }
  }

  /** The loop that appends the dummy block after the rebuild: compare the row's state with each
      non-baseline state. */
  method StateDummies(st: string, stateList: seq<string>) returns (d: seq<real>)
    ensures d == Dummies(st, stateList)
  {
    d := [];
    if |stateList| == 0 {
      return;
    }
    var i := 1;
    while i < |stateList|
      invariant 1 <= i <= |stateList|
      invariant |d| == i - 1
      invariant forall j :: 0 <= j < i - 1 ==> d[j] == if st == stateList[j + 1] then 1.0 else 0.0
    {
      if st == stateList[i] {
        d := d + [1.0];
      } else {
        d := d + [0.0];
      }
      i := i + 1;
    }
  }

  /** A design row: the response, the regressors, and the four keys carried to the model table. */
  datatype DesignRow = DesignRow(y: real, x: seq<real>, tract: string, state: string, burden: string, geoid: string)

  /** What the join needs: the burdened table, both header maps, the FARA key column and lookup, the state
      list, the switches, and the float parser and formatter. */
  datatype Ctx = Ctx(burdened: Table, hb: map<string, nat>, hf: map<string, nat>, key: Option<nat>,
                     fmap: map<string, Row>, states: seq<string>, cfg: ModelConfig,
                     parse: string -> real, format: real -> string)

  /** The length of the covariate part: intercept, three covariates and the optional NoVehicle one. */
  function BaseLen(cfg: ModelConfig): nat
  {
    1 + 3 + Btoi(cfg.includeNoVehicle)
  }

  /** The covariate part of x built from the matched FARA row: 1, LILATracts_1And10, LI, 1 - Urban and,
      when enabled, LA1and10_NoVehicle. */
  function Base(geo: Row, c: Ctx): (x: seq<real>)
    ensures |x| == BaseLen(c.cfg)
  {
    [1.0, c.parse(At(geo, Lookup(c.hf, "LILATracts_1And10"))), c.parse(At(geo, Lookup(c.hf, "LI"))),
     1.0 - c.parse(At(geo, Lookup(c.hf, "Urban")))]
    + (if c.cfg.includeNoVehicle then [c.parse(At(geo, Lookup(c.hf, "LA1and10_NoVehicle")))] else [])
  }

  /** The state block the join loop appends when StateFixedEffects is set, as written: its inner loop
      reuses the name i, so it compares the state of burdened row i (not of the row being joined) with
      stateList[i], and every joined row gets the same block. */
  function WrittenDummies(c: Ctx): (d: seq<real>)
    ensures |d| == if c.states == [] then 0 else |c.states| - 1
  {
    if c.states == [] then []
    else seq(|c.states| - 1, i requires 0 <= i < |c.states| - 1 =>
               if At(At2(c.burdened, i + 1), Lookup(c.hb, "StateAbbr")) == c.states[i + 1] then 1.0 else 0.0)
  }

  /** The row at position i of a table, or the empty row past its end. */
  function At2(t: Table, i: nat): Row
  {
    if i < |t| then t[i] else []
  }

  /** The tract of a burdened row. */
  function TractOf(r: Row, c: Ctx): string
  {
    At(r, Lookup(c.hb, "TractFIPS"))
  }

  /** The burdened row's tract has a FARA entry. */
  predicate Matched(r: Row, c: Ctx)
  {
    TractOf(r, c) in c.fmap
  }

  /** The design row the join loop appends for a matched burdened row. */
  function JoinRow(r: Row, c: Ctx): DesignRow
  {
    var tract := TractOf(r, c);
    var geo := if tract in c.fmap then c.fmap[tract] else [];
    var y := c.parse(At(r, Lookup(c.hb, "burden")));
    DesignRow(y, Base(geo, c) + (if c.cfg.stateFixedEffects then WrittenDummies(c) else []),
              tract, At(r, Lookup(c.hb, "StateAbbr")), c.format(y), RowKey(geo, c.key))
  }

  /** The join loop over the burdened data rows: unmatched rows are skipped, matched ones appended in order. */
  function Joined(data: Table, c: Ctx): seq<DesignRow>
  {
    if data == [] then []
    else Joined(data[..|data| - 1], c) + (if Matched(data[|data| - 1], c) then [JoinRow(data[|data| - 1], c)] else [])
  }

  /** The tracts of a sequence of design rows. */
  function Tracts(rows: seq<DesignRow>): (ts: seq<string>)
    ensures |ts| == |rows| && forall i :: 0 <= i < |rows| ==> ts[i] == rows[i].tract
  {
    seq(|rows|, i requires 0 <= i < |rows| => rows[i].tract)
  }

  /** The join keeps exactly the rows whose tract has a FARA entry, in their original order: its tracts are
      the burdened tracts filtered by membership in the lookup. */
  lemma {:induction false} JoinedTracts(data: Table, c: Ctx)
    ensures Tracts(Joined(data, c)) == Filter(Column(data, Lookup(c.hb, "TractFIPS")), t => t in c.fmap)
  {
    if data != [] {
      JoinedTracts(data[..|data| - 1], c);
      JoinedTractsStep(data, c);
    }
  }

  /** One step of JoinedTracts: appending a row keeps the tracts of the join equal to the filtered column. */
  lemma JoinedTractsStep(data: Table, c: Ctx)
    requires data != []
    requires var pre := data[..|data| - 1];
             Tracts(Joined(pre, c)) == Filter(Column(pre, Lookup(c.hb, "TractFIPS")), t => t in c.fmap)
    ensures Tracts(Joined(data, c)) == Filter(Column(data, Lookup(c.hb, "TractFIPS")), t => t in c.fmap)
  {
    var k := Lookup(c.hb, "TractFIPS");
    var p := (t: string) => t in c.fmap;
    var n := |data| - 1;
    var pre := data[..n];
    assert Column(data, k) == Column(pre, k) + [At(data[n], k)];
    FilterAppend(Column(pre, k), [At(data[n], k)], p);
    assert [At(data[n], k)][1..] == [];
    var tail := if Matched(data[n], c) then [JoinRow(data[n], c)] else [];
    TractsAppend(Joined(pre, c), tail);
  }

  lemma TractsAppend(a: seq<DesignRow>, b: seq<DesignRow>)
    ensures Tracts(a + b) == Tracts(a) + Tracts(b)
  {
  }

  /** Row d is the join row of a matched row of data. */
  predicate FromMatched(d: DesignRow, data: Table, c: Ctx)
  {
    exists j :: 0 <= j < |data| && Matched(data[j], c) && d == JoinRow(data[j], c)
  }

  /** Every joined row comes from a matched burdened row. */
  lemma {:induction false} JoinedRows(data: Table, c: Ctx)
    ensures forall i :: 0 <= i < |Joined(data, c)| ==> FromMatched(Joined(data, c)[i], data, c)
    ensures |Joined(data, c)| <= |data|
  {
    if data != [] {
      var n := |data| - 1;
      var pre := data[..n];
      JoinedRows(pre, c);
      var tail := if Matched(data[n], c) then [JoinRow(data[n], c)] else [];
      assert Joined(data, c) == Joined(pre, c) + tail;
      forall i | 0 <= i < |Joined(data, c)|
        ensures FromMatched(Joined(data, c)[i], data, c)
      {
        if i < |Joined(pre, c)| {
          assert Joined(data, c)[i] == Joined(pre, c)[i];
          assert FromMatched(Joined(pre, c)[i], pre, c);
          var j :| 0 <= j < |pre| && Matched(pre[j], c) && Joined(pre, c)[i] == JoinRow(pre[j], c);
          assert data[j] == pre[j];
          assert 0 <= j < |data| && Matched(data[j], c) && Joined(data, c)[i] == JoinRow(data[j], c);
        } else {
          assert Matched(data[n], c) && Joined(data, c)[i] == JoinRow(data[n], c);
        }
      }
    }
  }

  /** A joined row's GEOID key is its own tract, because the lookup files each row under that key. */
  lemma JoinKeyIsTract(fdata: Table, r: Row, c: Ctx)
    requires c.fmap == FaraMap(fdata, c.key) && Matched(r, c)
    ensures JoinRow(r, c).geoid == JoinRow(r, c).tract
  {
    FaraMapLast(fdata, c.key);
  }

  /** The rebuild of one design row: keep the covariates, drop what follows, append the row's dummy block. */
  function Rebuilt(d: DesignRow, c: Ctx): DesignRow
  {
    var keep := if BaseLen(c.cfg) <= |d.x| then BaseLen(c.cfg) else |d.x|;
    d.(x := d.x[..keep] + Dummies(d.state, c.states))
  }

  /** The rebuild loop over all design rows. */
  function RebuiltAll(rows: seq<DesignRow>, c: Ctx): (r: seq<DesignRow>)
    ensures |r| == |rows| && forall i :: 0 <= i < |rows| ==> r[i] == Rebuilt(rows[i], c)
  {
    seq(|rows|, i requires 0 <= i < |rows| => Rebuilt(rows[i], c))
  }

  /** What ExpectedBurden produces short of the fit: nothing for a table without data rows, a panic when a
      read lies past the end of its row, a failure when no tract matches (Go indexes rows[0] and panics), or
      the design rows with the state list. */
  datatype Outcome = NoModel | IndexOutOfRange | NoMatchedRows | Design(rows: seq<DesignRow>, states: seq<string>)

  /** The context ExpectedBurden builds from its two tables. */
  function Context(burdened: Table, fara: Table, cfg: ModelConfig, parse: string -> real, format: real -> string): Ctx
    requires burdened != [] && fara != []
  {
    var hb := HeaderMap(burdened[0]);
    var hf := HeaderMap(fara[0]);
    var key := KeyColumn(hf);
    Ctx(burdened, hb, hf, key, FaraMap(fara[1..], key), StateList(burdened[1..], Lookup(hb, "StateAbbr")),
        cfg, parse, format)
  }

  /** The covariate cells of a matched FARA row are all within the row. */
  predicate CovariatesReadable(geo: Row, c: Ctx)
  {
    Lookup(c.hf, "LILATracts_1And10") < |geo| && Lookup(c.hf, "LI") < |geo| && Lookup(c.hf, "Urban") < |geo| &&
    (c.cfg.includeNoVehicle ==> Lookup(c.hf, "LA1and10_NoVehicle") < |geo|)
  }

  /** Every read the join loop makes for burdened row r is in range: its tract cell and, when the tract has a
      FARA entry, its burden cell and the covariate cells of that entry. */
  predicate JoinReadable(r: Row, c: Ctx)
  {
    Lookup(c.hb, "TractFIPS") < |r| &&
    (Matched(r, c) ==> Lookup(c.hb, "burden") < |r| && CovariatesReadable(c.fmap[TractOf(r, c)], c))
  }

  predicate AllJoinReadable(data: Table, c: Ctx)
  {
    forall i :: 0 <= i < |data| ==> JoinReadable(data[i], c)
  }

  /** Every cell ExpectedBurden reads exists: the state cell of every burdened data row, the key cell of
      every FARA data row, and the cells the join loop reads. The other reads (the state block of the join
      loop, the GEOID key of a FARA entry) are of cells these already cover. */
  predicate InRange(burdened: Table, fara: Table, c: Ctx)
    requires burdened != [] && fara != []
  {
    Reaches(burdened[1..], Lookup(c.hb, "StateAbbr")) && (c.key.Some? ==> Reaches(fara[1..], c.key.value)) &&
    AllJoinReadable(burdened[1..], c)
  }

  /** The design ExpectedBurden fits. */
  function Expected(burdened: Table, fara: Table, cfg: ModelConfig, parse: string -> real, format: real -> string): Outcome
  {
    if |burdened| < 2 || |fara| < 2 then NoModel
    else
      var c := Context(burdened, fara, cfg, parse, format);
      if !InRange(burdened, fara, c) then IndexOutOfRange
      else
        var rows := RebuiltAll(Joined(burdened[1..], c), c);
        if rows == [] then NoMatchedRows else Design(rows, c.states)
  }

  /** ExpectedBurden up to the fit: the state loops, the FARA loop, the join loop and the rebuild loop. */
  method ExpectedBurden(burdened: Table, fara: Table, cfg: ModelConfig, parse: string -> real, format: real -> string)
    returns (r: Outcome)
    ensures r == Expected(burdened, fara, cfg, parse, format)
  {
    if |burdened| < 2 || |fara| < 2 {
      return NoModel;
    }
    var hb := HeaderIndex(burdened[0]);
    var hf := HeaderIndex(fara[0]);
    var st := Lookup(hb, "StateAbbr");
    var stateList := CollectStates(burdened, st);
    if stateList.None? {
      return IndexOutOfRange;
    }
    var key := KeyColumn(hf);
    var fmap := BuildFaraMap(fara, key);
    if fmap.None? {
      return IndexOutOfRange;
    }
    var c := Ctx(burdened, hb, hf, key, fmap.value, stateList.value, cfg, parse, format);
    assert c == Context(burdened, fara, cfg, parse, format);
    FaraMapKeyed(fara[1..], key);
    StateListSpec(burdened[1..], st);
    var rows := JoinLoop(burdened, c);
    if rows.None? {
      return IndexOutOfRange;
    }
    var design := RebuildLoop(rows.value, c);
    if |design| == 0 {
      return NoMatchedRows;
    }
    return Design(design, stateList.value);
  }

  /** Two tables whose rows are all as long as their non-empty header never make ExpectedBurden read past
      a row's end: every header position, and the 0 that a missing name looks up, lies within the header. */
  lemma ReadableInRange(burdened: Table, fara: Table, cfg: ModelConfig, parse: string -> real, format: real -> string)
    requires Readable(burdened) && Readable(fara)
    ensures Expected(burdened, fara, cfg, parse, format) != IndexOutOfRange
  {
    if |burdened| >= 2 && |fara| >= 2 {
      ReadableContext(burdened, fara, Context(burdened, fara, cfg, parse, format));
    }
  }

  lemma ReadableContext(burdened: Table, fara: Table, c: Ctx)
    requires Readable(burdened) && Readable(fara) && burdened != [] && fara != []
    requires c.hb == HeaderMap(burdened[0]) && c.hf == HeaderMap(fara[0]) && c.key == KeyColumn(c.hf)
    requires c.fmap == FaraMap(fara[1..], c.key)
    ensures InRange(burdened, fara, c)
  {
    var bw, fw := |burdened[0]|, |fara[0]|;
    ReadableData(burdened);
    ReadableData(fara);
    FaraMapRows(fara[1..], c.key, fw);
    HeaderBelow(burdened[0], "StateAbbr");
    HeaderBelow(burdened[0], "TractFIPS");
    HeaderBelow(burdened[0], "burden");
    HeaderBelow(fara[0], "LILATracts_1And10");
    HeaderBelow(fara[0], "LI");
    HeaderBelow(fara[0], "Urban");
    HeaderBelow(fara[0], "LA1and10_NoVehicle");
    WideJoinReadable(burdened[1..], c, bw, fw);
  }

  /** The data rows of a readable table are at least as long as its non-empty header. */
  lemma ReadableData(t: Table)
    requires Readable(t) && t != []
    ensures |t[0]| > 0 && forall i :: 0 <= i < |t[1..]| ==> |t[1..][i]| >= |t[0]|
  {
    assert forall i :: 0 <= i < |t[1..]| ==> t[1..][i] == t[i + 1];
  }

  /** The position a name looks up in the header map of a non-empty header lies within the header. */
  lemma HeaderBelow(hdr: seq<string>, name: string)
    requires |hdr| > 0
    ensures Lookup(HeaderMap(hdr), name) < |hdr|
  {
  }

  /** When every data row reaches bw, every lookup row reaches fw, and every position read lies below
      those widths, the join loop reads nothing past a row's end. */
  lemma WideJoinReadable(data: Table, c: Ctx, bw: nat, fw: nat)
    requires forall i :: 0 <= i < |data| ==> |data[i]| >= bw
    requires forall t :: t in c.fmap ==> |c.fmap[t]| >= fw
    requires Lookup(c.hb, "TractFIPS") < bw && Lookup(c.hb, "burden") < bw
    requires Lookup(c.hf, "LILATracts_1And10") < fw && Lookup(c.hf, "LI") < fw && Lookup(c.hf, "Urban") < fw
    requires Lookup(c.hf, "LA1and10_NoVehicle") < fw
    ensures AllJoinReadable(data, c)
  {
  }

  /** Every entry of the lookup is filed under its own key cell, so reading that cell is in range. */
  predicate Keyed(c: Ctx)
  {
    forall t :: t in c.fmap ==> c.key.Some? && c.key.value < |c.fmap[t]| && c.fmap[t][c.key.value] == t
  }

  /** The burdened-row loop of ExpectedBurden, building each matched row's x and keys; None where a read
      lies past the end of its row. It runs after the state loop, which read the state cell of every row. */
  method JoinLoop(burdened: Table, c: Ctx) returns (rows: Option<seq<DesignRow>>)
    requires burdened != [] && c.burdened == burdened
    requires Reaches(burdened[1..], Lookup(c.hb, "StateAbbr"))
    requires Keyed(c) && |c.states| < |burdened|
    ensures rows.Some? <==> AllJoinReadable(burdened[1..], c)
    ensures rows.Some? ==> rows.value == Joined(burdened[1..], c)
  {
    var acc := [];
    var i := 1;
    while i < |burdened|
      invariant 1 <= i <= |burdened|
      invariant acc == Joined(burdened[1..i], c)
      invariant AllJoinReadable(burdened[1..i], c)
    {
      ghost var next := burdened[1..i + 1];
      assert next[..i - 1] == burdened[1..i] && next[i - 1] == burdened[i];
      JoinedSnoc(next, c);
      assert burdened[1..][i - 1] == burdened[i];
      var step := JoinStep(burdened[i], c);
      if step.None? {
        return None;
      }
      acc := acc + step.value;
      i := i + 1;
    }
    assert burdened[1..i] == burdened[1..];
    return Some(acc);
  }

  /** One iteration of the join loop: read the tract, skip the row without a FARA entry, else build its
      design row. None where a read lies past the end of its row. */
  method JoinStep(row: Row, c: Ctx) returns (step: Option<seq<DesignRow>>)
    requires c.burdened != [] && Reaches(c.burdened[1..], Lookup(c.hb, "StateAbbr"))
    requires Lookup(c.hb, "StateAbbr") < |row|
    requires Keyed(c) && |c.states| < |c.burdened|
    ensures step.Some? <==> JoinReadable(row, c)
    ensures step.Some? ==> step.value == if Matched(row, c) then [JoinRow(row, c)] else []
  {
    var tp := Lookup(c.hb, "TractFIPS");
    if tp >= |row| {
      return None;
    }
    var tract := row[tp];
    if tract !in c.fmap {
      return Some([]);
    }
    var d := MatchedRow(row, c);
    if d.None? {
      return None;
    }
    return Some([d.value]);
  }

  /** Joining one more row appends its join row when it matches, and its reads join the others. */
  lemma JoinedSnoc(data: Table, c: Ctx)
    requires data != []
    ensures var n := |data| - 1;
            Joined(data, c) == Joined(data[..n], c) + (if Matched(data[n], c) then [JoinRow(data[n], c)] else []) &&
            (AllJoinReadable(data, c) <==> AllJoinReadable(data[..n], c) && JoinReadable(data[n], c))
  {
    var n := |data| - 1;
    assert forall i :: 0 <= i < n ==> data[..n][i] == data[i];
  }

  /** One iteration of the join loop for a matched row; None where Go reads past the end of the row or of
      its FARA entry. */
  method MatchedRow(row: Row, c: Ctx) returns (d: Option<DesignRow>)
    requires c.burdened != [] && Reaches(c.burdened[1..], Lookup(c.hb, "StateAbbr"))
    requires Lookup(c.hb, "StateAbbr") < |row| && Lookup(c.hb, "TractFIPS") < |row|
    requires Keyed(c) && |c.states| < |c.burdened|
    requires Matched(row, c)
    ensures d.Some? <==> JoinReadable(row, c)
    ensures d.Some? ==> d.value == JoinRow(row, c)
  {
    var tract := row[Lookup(c.hb, "TractFIPS")];
    var geo := c.fmap[tract];
    var bp := Lookup(c.hb, "burden");
    if bp >= |row| {
      return None;
    }
    var y := c.parse(row[bp]);
    var p1, p2, p3, p4 := Lookup(c.hf, "LILATracts_1And10"), Lookup(c.hf, "LI"), Lookup(c.hf, "Urban"),
                          Lookup(c.hf, "LA1and10_NoVehicle");
    if p1 >= |geo| || p2 >= |geo| || p3 >= |geo| || (c.cfg.includeNoVehicle && p4 >= |geo|) {
      return None;
    }
    var x := [1.0];
    x := x + [c.parse(geo[p1])];
    x := x + [c.parse(geo[p2])];
    x := x + [1.0 - c.parse(geo[p3])];
    if c.cfg.includeNoVehicle {
      x := x + [c.parse(geo[p4])];
    }
    assert x == Base(geo, c);
    if c.cfg.stateFixedEffects {
      var fe := WrittenLoop(c);
      x := x + fe;
    }
    var geoidKey := "";
    if c.key.Some? {
      geoidKey := geo[c.key.value];
    }
    d := Some(DesignRow(y, x, tract, row[Lookup(c.hb, "StateAbbr")], c.format(y), geoidKey));
  }

  /** The state-dummy loop inside the join loop, as written (reading burdened[i] for the loop index i). */
  method WrittenLoop(c: Ctx) returns (d: seq<real>)
    requires c.burdened != [] && Reaches(c.burdened[1..], Lookup(c.hb, "StateAbbr"))
    requires |c.states| < |c.burdened|
    ensures d == WrittenDummies(c)
  {
    d := [];
    if |c.states| == 0 {
      return;
    }
    var st := Lookup(c.hb, "StateAbbr");
    var i := 1;
    while i < |c.states|
      invariant 1 <= i <= |c.states|
      invariant |d| == i - 1
      invariant forall j :: 0 <= j < i - 1 ==>
                  d[j] == if At(At2(c.burdened, j + 1), st) == c.states[j + 1] then 1.0 else 0.0
    {
      assert c.burdened[1..][i - 1] == c.burdened[i];
      if c.burdened[i][st] == c.states[i] {
        d := d + [1.0];
      } else {
        d := d + [0.0];
      }
      i := i + 1;
    }
  }

  /** The rebuild loop: each row's x is cut back to its covariates and given its own dummy block. */
  method RebuildLoop(rows0: seq<DesignRow>, c: Ctx) returns (rows: seq<DesignRow>)
    ensures rows == RebuiltAll(rows0, c)
  {
    rows := rows0;
    var ridx := 0;
    while ridx < |rows|
      invariant 0 <= ridx <= |rows| == |rows0|
      invariant forall j :: 0 <= j < ridx ==> rows[j] == Rebuilt(rows0[j], c)
      invariant forall j :: ridx <= j < |rows| ==> rows[j] == rows0[j]
    {
      var x := rows[ridx].x;
      var baseLen := BaseLen(c.cfg);
      if baseLen <= |x| {
        x := x[..baseLen];
      }
      var dummies := StateDummies(rows[ridx].state, c.states);
      x := x + dummies;
      rows := rows[ridx := rows[ridx].(x := x)];
      ridx := ridx + 1;
    }
  }

  /** A rebuilt design row: its tract has a FARA entry whose key is the tract itself, its x is the
      covariates of that FARA row followed by the row's own dummy block, and its burden key is the
      formatted response. */
  predicate RowShape(d: DesignRow, c: Ctx)
  {
    d.tract in c.fmap && d.geoid == d.tract && d.burden == c.format(d.y) &&
    |d.x| == BaseLen(c.cfg) + |Dummies(d.state, c.states)| &&
    d.x[..BaseLen(c.cfg)] == Base(c.fmap[d.tract], c) &&
    d.x[BaseLen(c.cfg)..] == Dummies(d.state, c.states)
  }

  /** The rebuild discards whatever the join loop put after the covariates. */
  lemma RebuiltJoinRow(fdata: Table, r: Row, c: Ctx)
    requires c.fmap == FaraMap(fdata, c.key) && Matched(r, c)
    ensures RowShape(Rebuilt(JoinRow(r, c), c), c)
    ensures Rebuilt(JoinRow(r, c), c).state == At(r, Lookup(c.hb, "StateAbbr"))
    ensures Rebuilt(JoinRow(r, c), c).y == c.parse(At(r, Lookup(c.hb, "burden")))
  {
    JoinKeyIsTract(fdata, r, c);
    var j := JoinRow(r, c);
    var b := Base(c.fmap[j.tract], c);
    var extra := if c.cfg.stateFixedEffects then WrittenDummies(c) else [];
    assert j.x == b + extra;
    assert j.x[..BaseLen(c.cfg)] == b;
  }

  /** The state list of a staged design is the sorted, duplicate-free list of the states of the burdened
      rows, and it is not empty. */
  lemma DesignStates(burdened: Table, fara: Table, cfg: ModelConfig, parse: string -> real, format: real -> string)
    requires Expected(burdened, fara, cfg, parse, format).Design?
    ensures var e := Expected(burdened, fara, cfg, parse, format);
            var c := Context(burdened, fara, cfg, parse, format);
            e.states == c.states && e.states != [] && StrictlySorted(e.states) &&
            forall s :: s in e.states <==> s in Column(burdened[1..], Lookup(c.hb, "StateAbbr"))
  {
    var c := Context(burdened, fara, cfg, parse, format);
    StateListSpec(burdened[1..], Lookup(c.hb, "StateAbbr"));
    ColumnMembers(burdened[1..], Lookup(c.hb, "StateAbbr"));
  }

  /** Design row d comes from the matched burdened row j, whose tract, state and response it keeps. */
  predicate RowFrom(d: DesignRow, burdened: Table, c: Ctx, j: int)
  {
    1 <= j < |burdened| && Matched(burdened[j], c) && d.tract == TractOf(burdened[j], c) &&
    d.state == At(burdened[j], Lookup(c.hb, "StateAbbr")) && d.y == c.parse(At(burdened[j], Lookup(c.hb, "burden")))
  }

  /** The rebuilt join row of the matched burdened row j: it has the shape RowShape gives, comes from row j,
      and its state is one of the states listed. */
  lemma RebuiltRowFrom(burdened: Table, fdata: Table, c: Ctx, j: int)
    requires 1 <= j < |burdened| && Matched(burdened[j], c) && c.fmap == FaraMap(fdata, c.key)
    requires forall s :: s in c.states <==> s in Column(burdened[1..], Lookup(c.hb, "StateAbbr"))
    ensures var d := Rebuilt(JoinRow(burdened[j], c), c);
            RowShape(d, c) && d.state in c.states && RowFrom(d, burdened, c, j)
  {
    RebuiltJoinRow(fdata, burdened[j], c);
    assert Column(burdened[1..], Lookup(c.hb, "StateAbbr"))[j - 1] == At(burdened[j], Lookup(c.hb, "StateAbbr"));
  }

  /** Each design row has the shape RowShape gives, its state listed, and a matched burdened row it
      comes from. */
  predicate DesignRowOK(d: DesignRow, burdened: Table, c: Ctx)
  {
    RowShape(d, c) && d.state in c.states && exists j :: 1 <= j < |burdened| && RowFrom(d, burdened, c, j)
  }

  /** The rebuilt join of burdened's data rows consists of rows satisfying DesignRowOK. */
  lemma RebuiltJoined(burdened: Table, fdata: Table, c: Ctx)
    requires burdened != [] && c.fmap == FaraMap(fdata, c.key)
    requires forall s :: s in c.states <==> s in Column(burdened[1..], Lookup(c.hb, "StateAbbr"))
    ensures forall i :: 0 <= i < |Joined(burdened[1..], c)| ==>
              DesignRowOK(Rebuilt(Joined(burdened[1..], c)[i], c), burdened, c)
  {
    JoinedRows(burdened[1..], c);
    forall i | 0 <= i < |Joined(burdened[1..], c)|
      ensures DesignRowOK(Rebuilt(Joined(burdened[1..], c)[i], c), burdened, c)
    {
      RebuiltJoinedAt(burdened, fdata, c, Joined(burdened[1..], c)[i]);
    }
  }

  lemma RebuiltJoinedAt(burdened: Table, fdata: Table, c: Ctx, d: DesignRow)
    requires burdened != [] && c.fmap == FaraMap(fdata, c.key)
    requires forall s :: s in c.states <==> s in Column(burdened[1..], Lookup(c.hb, "StateAbbr"))
    requires FromMatched(d, burdened[1..], c)
    ensures DesignRowOK(Rebuilt(d, c), burdened, c)
  {
    var data := burdened[1..];
    var j :| 0 <= j < |data| && Matched(data[j], c) && d == JoinRow(data[j], c);
    assert data[j] == burdened[j + 1];
    RebuiltRowFrom(burdened, fdata, c, j + 1);
  }

  /** Every row of a staged design comes from a matched burdened row, has its state in the state list,
      has the shape RowShape gives, and has 1 + 3 + btoi(IncludeNoVehicle) + |stateList| - 1 entries in x. */
  lemma DesignRows(burdened: Table, fara: Table, cfg: ModelConfig, parse: string -> real, format: real -> string)
    requires Expected(burdened, fara, cfg, parse, format).Design?
    ensures var e := Expected(burdened, fara, cfg, parse, format);
            var c := Context(burdened, fara, cfg, parse, format);
            forall i :: 0 <= i < |e.rows| ==>
              DesignRowOK(e.rows[i], burdened, c) && |e.rows[i].x| == BaseLen(cfg) + |e.states| - 1
  {
    var c := Context(burdened, fara, cfg, parse, format);
    DesignStates(burdened, fara, cfg, parse, format);
    RebuiltJoined(burdened, fara[1..], c);
  }

  /** The rebuild of a concatenation is the concatenation of the rebuilds. */
  lemma RebuiltAppend(a: seq<DesignRow>, b: seq<DesignRow>, c: Ctx)
    ensures RebuiltAll(a + b, c) == RebuiltAll(a, c) + RebuiltAll(b, c)
  {
  }

  /** c with StateFixedEffects set to on. */
  function WithFixedEffects(c: Ctx, on: bool): Ctx
  {
    c.(cfg := c.cfg.(stateFixedEffects := on))
  }

  /** A rebuilt row does not depend on StateFixedEffects: the block the join loop appends under that
      switch is cut off again. */
  lemma RebuiltIgnoresFlag(r: Row, c: Ctx, on: bool)
    ensures Rebuilt(JoinRow(r, c), c) == Rebuilt(JoinRow(r, WithFixedEffects(c, on)), WithFixedEffects(c, on))
  {
    var c' := WithFixedEffects(c, on);
    var j := JoinRow(r, c);
    var j' := JoinRow(r, c');
    var geo := if j.tract in c.fmap then c.fmap[j.tract] else [];
    assert Base(geo, c) == Base(geo, c');
    assert j.x[..BaseLen(c.cfg)] == Base(geo, c);
    assert j'.x[..BaseLen(c'.cfg)] == Base(geo, c');
  }

  /** The rebuilt design does not depend on StateFixedEffects, and every row always gets its own state
      dummies. */
  lemma {:induction false} FixedEffectsIgnoredRows(data: Table, c: Ctx, on: bool)
    ensures RebuiltAll(Joined(data, c), c) == RebuiltAll(Joined(data, WithFixedEffects(c, on)), WithFixedEffects(c, on))
  {
    var c' := WithFixedEffects(c, on);
    if data != [] {
      var n := |data| - 1;
      var pre := data[..n];
      FixedEffectsIgnoredRows(pre, c, on);
      var t := if Matched(data[n], c) then [JoinRow(data[n], c)] else [];
      var t' := if Matched(data[n], c') then [JoinRow(data[n], c')] else [];
      assert Joined(data, c) == Joined(pre, c) + t;
      assert Joined(data, c') == Joined(pre, c') + t';
      RebuiltAppend(Joined(pre, c), t, c);
      RebuiltAppend(Joined(pre, c'), t', c');
      RebuiltIgnoresFlag(data[n], c, on);
      assert RebuiltAll(t, c) == RebuiltAll(t', c');
    }
  }

  /** Whether every read is in range does not depend on StateFixedEffects. */
  lemma InRangeIgnoresFlag(burdened: Table, fara: Table, c: Ctx, on: bool)
    requires burdened != [] && fara != []
    ensures InRange(burdened, fara, c) == InRange(burdened, fara, WithFixedEffects(c, on))
  {
    var c' := WithFixedEffects(c, on);
    forall r | r in burdened[1..]
      ensures JoinReadable(r, c) == JoinReadable(r, c')
    {
      assert Matched(r, c) == Matched(r, c');
    }
  }

  /** ExpectedBurden stages the same design with StateFixedEffects on and off. */
  lemma FixedEffectsIgnored(burdened: Table, fara: Table, cfg: ModelConfig, parse: string -> real, format: real -> string)
    ensures Expected(burdened, fara, cfg, parse, format) ==
            Expected(burdened, fara, cfg.(stateFixedEffects := !cfg.stateFixedEffects), parse, format)
  {
    if |burdened| >= 2 && |fara| >= 2 {
      var c := Context(burdened, fara, cfg, parse, format);
      FixedEffectsIgnoredRows(burdened[1..], c, !cfg.stateFixedEffects);
      InRangeIgnoresFlag(burdened, fara, c, !cfg.stateFixedEffects);
      assert WithFixedEffects(c, !cfg.stateFixedEffects) ==
             Context(burdened, fara, cfg.(stateFixedEffects := !cfg.stateFixedEffects), parse, format);
    }
  }

  /** The design keeps exactly the burdened rows whose tract has a FARA entry, in their original order. */
  lemma DesignTracts(burdened: Table, fara: Table, cfg: ModelConfig, parse: string -> real, format: real -> string)
    requires |burdened| >= 2 && |fara| >= 2
    ensures var c := Context(burdened, fara, cfg, parse, format);
            var matched := Filter(Column(burdened[1..], Lookup(c.hb, "TractFIPS")), t => t in c.fmap);
            match Expected(burdened, fara, cfg, parse, format)
            case Design(rows, _) => Tracts(rows) == matched
            case NoMatchedRows => matched == []
            case IndexOutOfRange => !InRange(burdened, fara, c)
            case NoModel => false
  {
    var c := Context(burdened, fara, cfg, parse, format);
    JoinedTracts(burdened[1..], c);
    var j := Joined(burdened[1..], c);
    assert Tracts(RebuiltAll(j, c)) == Tracts(j);
  }

  /** The resilience score of a residual: its negation over the residual spread plus 1e-9. */
  function Score(res: real, stdev: real): real
    requires stdev >= 0.0
  {
    -res / (stdev + 0.000000001)
  }

  /** The score has the opposite sign of the residual: a tract more burdened than its covariates predict
      scores below zero. */
  lemma ScoreSign(res: real, stdev: real)
    requires stdev >= 0.0
    ensures res > 0.0 <==> Score(res, stdev) < 0.0
    ensures res == 0.0 <==> Score(res, stdev) == 0.0
  {
    var d := stdev + 0.000000001;
    assert Score(res, stdev) * d == -res;
  }

  /** The header of the model table. */
  const ModelHead: Row := ["TractFIPS", "StateAbbr", "burden", "resid", "resilience_score", "GEOID"]

  /** The row of the model table for design row d and its residual. */
  function ModelRow(d: DesignRow, res: real, stdev: real, format: real -> string): Row
    requires stdev >= 0.0
  {
    [d.tract, d.state, d.burden, format(res), format(Score(res, stdev)), d.geoid]
  }

  /** The model table: the header, then one row per design row in order. */
  function ModelTable(rows: seq<DesignRow>, resids: seq<real>, stdev: real, format: real -> string): Table
    requires |resids| == |rows| && stdev >= 0.0
  {
    [ModelHead] + seq(|rows|, i requires 0 <= i < |rows| => ModelRow(rows[i], resids[i], stdev, format))
  }

  /** The loop that appends a model-table row per design row. */
  method BuildModelTable(rows: seq<DesignRow>, resids: seq<real>, stdev: real, format: real -> string)
    returns (mtab: Table)
    requires |resids| == |rows| && stdev >= 0.0
    ensures mtab == ModelTable(rows, resids, stdev, format)
  {
    mtab := [ModelHead];
    var i := 0;
    while i < |rows|
      invariant 0 <= i <= |rows|
      invariant |mtab| == i + 1 && mtab[0] == ModelHead
      invariant forall j :: 0 <= j < i ==> mtab[j + 1] == ModelRow(rows[j], resids[j], stdev, format)
    {
      var res := resids[i];
      var score := -res / (stdev + 0.000000001);
      mtab := mtab + [[rows[i].tract, rows[i].state, rows[i].burden, format(res), format(score), rows[i].geoid]];
      i := i + 1;
    }
  }

  /** The model table has the header and then, for each design row in order, a six-cell row whose first
      and last cells are its tract (which has a FARA entry), whose state and burden come from the design
      row, and whose score has the opposite sign of its residual. With DesignRows this describes the table
      ExpectedBurden returns. */
  lemma ModelTableRows(rows: seq<DesignRow>, resids: seq<real>, stdev: real, c: Ctx)
    requires |resids| == |rows| && stdev >= 0.0
    requires forall i :: 0 <= i < |rows| ==> RowShape(rows[i], c)
    ensures var t := ModelTable(rows, resids, stdev, c.format);
            |t| == |rows| + 1 && t[0] == ModelHead &&
            forall i :: 0 <= i < |rows| ==>
              |t[i + 1]| == 6 && t[i + 1][0] == rows[i].tract && t[i + 1][5] == rows[i].tract &&
              t[i + 1][0] in c.fmap && t[i + 1][1] == rows[i].state && t[i + 1][2] == c.format(rows[i].y) &&
              t[i + 1][3] == c.format(resids[i]) && (resids[i] > 0.0 <==> Score(resids[i], stdev) < 0.0)
  {
    var t := ModelTable(rows, resids, stdev, c.format);
    forall i | 0 <= i < |rows|
      ensures t[i + 1] == ModelRow(rows[i], resids[i], stdev, c.format)
      ensures resids[i] > 0.0 <==> Score(resids[i], stdev) < 0.0
    {
      ScoreSign(resids[i], stdev);
    }
  }
}
