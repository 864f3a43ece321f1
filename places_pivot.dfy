/** The long-to-wide pivot of the CDC PLACES tract file: one input row per (tract, measure), one output
    row per tract with a column per requested outcome. */
module PlacesPivot {
  import opened Wrappers
  import opened Text
  import opened Headers

  /** The measure IDs the pivot recognises, in upper case, in the order the switch tests them. */
  const MeasureIds: seq<string> := ["OBESITY", "DIABETES", "BPHIGH", "CHD", "PHYSINACT"]
  /** Their short names, in the same order. */
  const ShortNames: seq<string> := ["obesity", "diabetes", "hypertension", "chd", "physical_inactivity"]

  /** The switch from the k-th case on: the short name of the first case at or after k that u matches. */
  function ShortNameFrom(u: string, k: nat): string
    decreases 5 - k
  {
    if k >= 5 then ""
    else if u == MeasureIds[k] then ShortNames[k]
    else ShortNameFrom(u, k + 1)
  }

  /** The outcome short name for a PLACES MeasureId, or "" for a measure the pipeline does not use. */
  function MeasureMap(id: string): (out: string)
  {
    ShortNameFrom(ToUpper(TrimSpace(id)), 0)
  }

  /** A measure is recognised exactly when its trimmed, upper-cased ID is one of the five, and then it maps
      to the short name in the same position; two recognised IDs share a short name only if they are the
      same ID up to case and surrounding white space. */
  lemma MeasureMapSpec(id: string)
    ensures MeasureMap(id) != "" <==> ToUpper(TrimSpace(id)) in MeasureIds
    ensures forall k :: 0 <= k < 5 && ToUpper(TrimSpace(id)) == MeasureIds[k] ==> MeasureMap(id) == ShortNames[k]
    ensures forall k :: 0 <= k < 5 && MeasureMap(id) == ShortNames[k] ==> ToUpper(TrimSpace(id)) == MeasureIds[k]
    ensures MeasureMap(id) != "StateAbbr"
  {
  }

  /** The mapping ignores case and surrounding white space. */
  lemma MeasureMapNormalises(id: string)
    ensures MeasureMap(ToUpper(id)) == MeasureMap(id)
    ensures MeasureMap(TrimSpace(id)) == MeasureMap(id)
  {
    TrimSpaceUpper(id);
    ToUpperIdempotent(TrimSpace(id));
    TrimSpaceIdempotent(id);
  }

  /** contains(xs, x): a linear scan for x. */
  method ContainsStr(xs: seq<string>, x: string) returns (found: bool)
    ensures found <==> x in xs
  {
    var i := 0;
    while i < |xs|
      invariant 0 <= i <= |xs|
      invariant x !in xs[..i]
    {
      if xs[i] == x {
        return true;
      }
      assert xs[..i + 1] == xs[..i] + [xs[i]];
      i := i + 1;
    }
    assert xs[..i] == xs;
    return false;
  }

  /** The four columns the pivot reads, in the order it checks them. */
  const Required: seq<string> := ["LocationID", "MeasureId", "Data_Value", "StateAbbr"]

  /** Positions of the LocationID, MeasureId, Data_Value and StateAbbr columns. */
  datatype Columns = Columns(loc: nat, mid: nat, val: nat, st: nat)

  predicate HasColumns(h: map<string, nat>)
  {
    forall k :: k in Required ==> k in h
  }

  function ColumnsOf(h: map<string, nat>): Columns
    requires HasColumns(h)
  {
    Columns(h["LocationID"], h["MeasureId"], h["Data_Value"], h["StateAbbr"])
  }

  /** The row is long enough for all four reads. */
  predicate Fits(r: seq<string>, c: Columns)
  {
    c.loc < |r| && c.mid < |r| && c.val < |r| && c.st < |r|
  }

  predicate AllFit(data: seq<seq<string>>, c: Columns)
  {
    forall i :: 0 <= i < |data| ==> Fits(data[i], c)
  }

  /** The row is long enough to read and its measure is one the pivot recognises. */
  predicate Recognised(r: seq<string>, c: Columns)
  {
    Fits(r, c) && MeasureMap(r[c.mid]) != ""
  }

  /** The row can be read, names tract t and carries a measure that maps to outcome o. */
  predicate Measures(r: seq<string>, c: Columns, t: string, o: string)
  {
    Fits(r, c) && r[c.loc] == t && MeasureMap(r[c.mid]) == o
  }

  /** The effect of one data row on the tract table: a recognised row creates its tract's entry, keyed by
      the row's state, if there is none yet, and stores its value under its outcome when that outcome is
      requested; any other row changes nothing. */
  function Step(tab: map<string, map<string, string>>, r: seq<string>, c: Columns, outcomes: seq<string>)
    : map<string, map<string, string>>
  {
    if !Recognised(r, c) then tab
    else
      var out := MeasureMap(r[c.mid]);
      var t := r[c.loc];
      var m := if t in tab then tab[t] else map["StateAbbr" := r[c.st]];
      if out in outcomes then tab[t := m[out := r[c.val]]] else tab[t := m]
  }

  /** The tract table after the data rows, in order. The pivot only folds rows it can read (FoldRows stops
      at the first row that is too short), so Tab is only ever taken of such rows. */
  function Tab(data: seq<seq<string>>, c: Columns, outcomes: seq<string>): map<string, map<string, string>>
  {
    if data == [] then map[]
    else Step(Tab(data[..|data| - 1], c, outcomes), data[|data| - 1], c, outcomes)
  }

  /** One step adds at most the row's own tract, and only when the row is recognised. */
  lemma StepKeys(tab: map<string, map<string, string>>, r: seq<string>, c: Columns, outcomes: seq<string>, t: string)
    ensures t in Step(tab, r, c, outcomes) <==> t in tab || (Recognised(r, c) && r[c.loc] == t)
  {
  }

  /** One step leaves every other tract alone; for the row's own tract it creates the entry (keyed by the
      row's state) if needed and, when the outcome is requested, stores the value. */
  lemma StepSpec(tab: map<string, map<string, string>>, r: seq<string>, c: Columns, outcomes: seq<string>, t: string)
    ensures var s := Step(tab, r, c, outcomes);
            (t in s <==> t in tab || (Recognised(r, c) && r[c.loc] == t)) &&
            (t in tab && !(Recognised(r, c) && r[c.loc] == t) ==> s[t] == tab[t]) &&
            (Recognised(r, c) && r[c.loc] == t ==>
               var m := if t in tab then tab[t] else map["StateAbbr" := r[c.st]];
               s[t] == if MeasureMap(r[c.mid]) in outcomes then m[MeasureMap(r[c.mid]) := r[c.val]] else m)
  {
  }

  /** A tract has an entry iff some data row for it carries a recognised measure, requested or not. */
  lemma TabKeys(data: seq<seq<string>>, c: Columns, outcomes: seq<string>, t: string)
    ensures t in Tab(data, c, outcomes) <==>
            exists i :: 0 <= i < |data| && Recognised(data[i], c) && data[i][c.loc] == t
  {
    TabKeysSound(data, c, outcomes, t);
    forall i | 0 <= i < |data| && Recognised(data[i], c) && data[i][c.loc] == t
      ensures t in Tab(data, c, outcomes)
    {
      TabKeysComplete(data, c, outcomes, t, i);
    }
  }

  /** Only a recognised row creates a tract entry. */
  lemma {:induction false} TabKeysSound(data: seq<seq<string>>, c: Columns, outcomes: seq<string>, t: string)
    ensures t in Tab(data, c, outcomes) ==>
            exists i :: 0 <= i < |data| && Recognised(data[i], c) && data[i][c.loc] == t
  {
    if data != [] {
      var n := |data| - 1;
      var pre := data[..n];
      TabKeysSound(pre, c, outcomes, t);
      var t0 := Tab(pre, c, outcomes);
      assert Tab(data, c, outcomes) == Step(t0, data[n], c, outcomes);
      StepKeys(t0, data[n], c, outcomes, t);
      if t in t0 {
        var i :| 0 <= i < n && Recognised(pre[i], c) && pre[i][c.loc] == t;
        assert pre[i] == data[i];
      }
    }
  }

  /** A recognised row's tract has an entry from that row on. */
  lemma TabKeysComplete(data: seq<seq<string>>, c: Columns, outcomes: seq<string>, t: string, i: nat)
    requires i < |data| && Recognised(data[i], c) && data[i][c.loc] == t
    ensures t in Tab(data, c, outcomes)
  {
    var upto := data[..i + 1];
    assert upto[..i] == data[..i] && upto[i] == data[i];
    assert Tab(upto, c, outcomes) == Step(Tab(data[..i], c, outcomes), data[i], c, outcomes);
    StepKeys(Tab(data[..i], c, outcomes), data[i], c, outcomes, t);
    TabGrows(data, c, outcomes, t, i + 1);
  }

  /** Tract entries, once created, stay. */
  lemma {:induction false} TabGrows(data: seq<seq<string>>, c: Columns, outcomes: seq<string>, t: string, j: nat)
    requires j <= |data| && t in Tab(data[..j], c, outcomes)
    ensures t in Tab(data, c, outcomes)
    decreases |data|
  {
    if j < |data| {
      var n := |data| - 1;
      var pre := data[..n];
      assert pre[..j] == data[..j];
      TabGrows(pre, c, outcomes, t, j);
      var t0 := Tab(pre, c, outcomes);
      assert Tab(data, c, outcomes) == Step(t0, data[n], c, outcomes);
      StepKeys(t0, data[n], c, outcomes, t);
    } else {
      assert data[..j] == data;
    }
  }

  /** Every tract entry records the state and never an outcome named "". */
  lemma {:induction false} TabEntry(data: seq<seq<string>>, c: Columns, outcomes: seq<string>, t: string)
    ensures t in Tab(data, c, outcomes) ==> "StateAbbr" in Tab(data, c, outcomes)[t] && "" !in Tab(data, c, outcomes)[t]
  {
    if data != [] {
      var n := |data| - 1;
      TabEntry(data[..n], c, outcomes, t);
      StepSpec(Tab(data[..n], c, outcomes), data[n], c, outcomes, t);
    }
  }

  /** A tract's StateAbbr is the one on its first recognised row; later rows never change it. */
  lemma {:induction false} TabState(data: seq<seq<string>>, c: Columns, outcomes: seq<string>, t: string, i: nat)
    requires i < |data| && Recognised(data[i], c) && data[i][c.loc] == t
    requires forall j :: 0 <= j < i ==> !(Recognised(data[j], c) && data[j][c.loc] == t)
    ensures t in Tab(data, c, outcomes) && "StateAbbr" in Tab(data, c, outcomes)[t]
    ensures Tab(data, c, outcomes)[t]["StateAbbr"] == data[i][c.st]
  {
    var n := |data| - 1;
    var pre := data[..n];
    var t0 := Tab(pre, c, outcomes);
    assert Tab(data, c, outcomes) == Step(t0, data[n], c, outcomes);
    StepSpec(t0, data[n], c, outcomes, t);
    if Fits(data[n], c) {
      MeasureMapSpec(data[n][c.mid]);
    }
    if i < n {
      assert pre[i] == data[i];
      assert forall j :: 0 <= j < i ==> pre[j] == data[j];
      TabState(pre, c, outcomes, t, i);
    } else {
      TabKeys(pre, c, outcomes, t);
      TabEntry(pre, c, outcomes, t);
      assert forall j :: 0 <= j < n ==> pre[j] == data[j];
      assert t !in t0;
    }
  }

  /** For a requested outcome o (other than the StateAbbr key itself and ""), the tract's cell is set iff
      some row for the tract carries a measure that maps to o. */
  lemma {:induction false} TabCellSet(data: seq<seq<string>>, c: Columns, outcomes: seq<string>, t: string, o: string)
    requires o in outcomes && o != "StateAbbr" && o != ""
    requires t in Tab(data, c, outcomes)
    ensures o in Tab(data, c, outcomes)[t] <==> exists i :: 0 <= i < |data| && Measures(data[i], c, t, o)
  {
    var n := |data| - 1;
    var pre := data[..n];
    var t0 := Tab(pre, c, outcomes);
    assert Tab(data, c, outcomes) == Step(t0, data[n], c, outcomes);
    StepSpec(t0, data[n], c, outcomes, t);
    if t in t0 {
      TabCellSet(pre, c, outcomes, t, o);
      if o in t0[t] {
        var i :| 0 <= i < n && Measures(pre[i], c, t, o);
        assert pre[i] == data[i];
      }
      forall i | 0 <= i < n && Measures(data[i], c, t, o)
        ensures o in t0[t]
      {
        assert pre[i] == data[i];
      }
    } else {
      forall i | 0 <= i < n
        ensures !Measures(data[i], c, t, o)
      {
        assert pre[i] == data[i];
        if Measures(pre[i], c, t, o) {
          TabKeysComplete(pre, c, outcomes, t, i);
        }
      }
    }
  }

  /** ... and then it holds the Data_Value of the last such row. */
  lemma {:induction false} TabCellLast(data: seq<seq<string>>, c: Columns, outcomes: seq<string>, t: string, o: string, i: nat)
    requires o in outcomes && o != "StateAbbr" && o != ""
    requires i < |data| && Measures(data[i], c, t, o)
    requires forall j :: i < j < |data| ==> !Measures(data[j], c, t, o)
    ensures t in Tab(data, c, outcomes) && o in Tab(data, c, outcomes)[t]
    ensures Tab(data, c, outcomes)[t][o] == data[i][c.val]
  {
    var n := |data| - 1;
    var pre := data[..n];
    var t0 := Tab(pre, c, outcomes);
    assert Tab(data, c, outcomes) == Step(t0, data[n], c, outcomes);
    StepSpec(t0, data[n], c, outcomes, t);
    if i < n {
      assert pre[i] == data[i];
      assert forall j :: i < j < n ==> pre[j] == data[j];
      TabCellLast(pre, c, outcomes, t, o, i);
    }
  }

  /** Go's m[o]: the stored value, or "" for a missing key. */
  function Cell(m: map<string, string>, o: string): string
  {
    if o in m then m[o] else ""
  }

  /** The outcome cells of a wide row, one per requested outcome, in request order. */
  function Cells(m: map<string, string>, os: seq<string>): (r: seq<string>)
    ensures |r| == |os| && forall k :: 0 <= k < |os| ==> r[k] == Cell(m, os[k])
  {
    if os == [] then [] else Cells(m, os[..|os| - 1]) + [Cell(m, os[|os| - 1])]
  }

  /** The wide table: its header and one row per tract, keyed by tract because Go emits them in map order. */
  datatype Wide = Wide(header: seq<string>, rows: map<string, seq<string>>)

  /** The wide table built from a tract table. */
  function WideOf(tab: map<string, map<string, string>>, outcomes: seq<string>): (w: Wide)
    ensures w.header == ["TractFIPS", "StateAbbr"] + outcomes
    ensures w.rows.Keys == tab.Keys
    ensures forall t :: t in w.rows ==>
              |w.rows[t]| == 2 + |outcomes| && w.rows[t][0] == t && w.rows[t][1] == Cell(tab[t], "StateAbbr") &&
              w.rows[t][2..] == Cells(tab[t], outcomes)
  {
    Wide(["TractFIPS", "StateAbbr"] + outcomes,
         map t | t in tab :: [t, Cell(tab[t], "StateAbbr")] + Cells(tab[t], outcomes))
  }

  datatype PivotError = EmptyPlaces | MissingColumn(name: string) | RowTooShort(row: nat)

  /** PivotPLACES: checks the header, folds the data rows into the tract table, then emits one row per tract.
      A data row too short for one of the four reads stops the pivot (Go panics there). */
  method PivotPLACES(rows: seq<seq<string>>, outcomes: seq<string>) returns (r: Result<Wide, PivotError>)
    ensures rows == [] <==> r == Failure(EmptyPlaces)
    ensures r.Failure? && r.error.MissingColumn? ==>
              rows != [] && r.error.name !in HeaderMap(rows[0]) &&
              exists k :: 0 <= k < |Required| && Required[k] == r.error.name &&
                          forall j :: 0 <= j < k ==> Required[j] in HeaderMap(rows[0])
    ensures rows != [] && !HasColumns(HeaderMap(rows[0])) ==> r.Failure? && r.error.MissingColumn?
    ensures r.Failure? && r.error.RowTooShort? ==>
              rows != [] && HasColumns(HeaderMap(rows[0])) && 1 <= r.error.row < |rows| &&
              !Fits(rows[r.error.row], ColumnsOf(HeaderMap(rows[0]))) &&
              forall j :: 1 <= j < r.error.row ==> Fits(rows[j], ColumnsOf(HeaderMap(rows[0])))
    ensures r.Success? <==> rows != [] && HasColumns(HeaderMap(rows[0])) &&
                            AllFit(rows[1..], ColumnsOf(HeaderMap(rows[0])))
    ensures r.Success? ==> r.value == WideOf(Tab(rows[1..], ColumnsOf(HeaderMap(rows[0])), outcomes), outcomes)
  {
    if |rows| == 0 {
      return Failure(EmptyPlaces);
    }
    var h := HeaderIndex(rows[0]);
    var missing := FirstMissing(h);
    if missing.Some? {
      return Failure(MissingColumn(missing.value));
    }
    var c := ColumnsOf(h);
    var data := rows[1..];
    var folded := FoldRows(data, c, outcomes);
    if folded.Failure? {
      var e := folded.error;
      assert rows[e + 1] == data[e];
      forall j | 1 <= j < e + 1
        ensures Fits(rows[j], c)
      {
        assert rows[j] == data[..e][j - 1];
      }
      return Failure(RowTooShort(e + 1));
    }
    var wide := BuildWide(folded.value, outcomes);
    return Success(wide);
  }

  /** The loop over the required column names: the first one the header lacks, if any. */
  method FirstMissing(h: map<string, nat>) returns (missing: Option<string>)
    ensures missing.None? <==> HasColumns(h)
    ensures missing.Some? ==>
              missing.value !in h &&
              exists k :: 0 <= k < |Required| && Required[k] == missing.value &&
                          forall j :: 0 <= j < k ==> Required[j] in h
  {
    var q := 0;
    while q < |Required|
      invariant 0 <= q <= |Required|
      invariant forall j :: 0 <= j < q ==> Required[j] in h
    {
      if Required[q] !in h {
        return Some(Required[q]);
      }
      q := q + 1;
    }
    return None;
  }

  /** The loop over the data rows that fills the tract table, stopping at the first row too short to read. */
  method FoldRows(data: seq<seq<string>>, c: Columns, outcomes: seq<string>)
    returns (r: Result<map<string, map<string, string>>, nat>)
    ensures r.Success? <==> AllFit(data, c)
    ensures r.Success? ==> r.value == Tab(data, c, outcomes)
    ensures r.Failure? ==> r.error < |data| && !Fits(data[r.error], c) && AllFit(data[..r.error], c)
  {
    var tab: map<string, map<string, string>> := map[];
    var i := 0;
    while i < |data|
      invariant 0 <= i <= |data|
      invariant AllFit(data[..i], c)
      invariant tab == Tab(data[..i], c, outcomes)
    {
      var row := data[i];
      if !Fits(row, c) {
        return Failure(i);
      }
      tab := AddRow(tab, row, c, outcomes);
      TabSnoc(data, i, c, outcomes);
      i := i + 1;
    }
    assert data[..i] == data;
    return Success(tab);
  }

  /** The body of the row loop: a recognised row creates its tract's entry if needed, keyed by the row's
      state, and stores its value when the outcome is requested. */
  method AddRow(tab: map<string, map<string, string>>, row: seq<string>, c: Columns, outcomes: seq<string>)
    returns (tab': map<string, map<string, string>>)
    requires Fits(row, c)
    ensures tab' == Step(tab, row, c, outcomes)
  {
    tab' := tab;
    var tract := row[c.loc];
    var mid := row[c.mid];
    var val := row[c.val];
    var state := row[c.st];
    var out := MeasureMap(mid);
    if out == "" {
      return;
    }
    if tract !in tab' {
      tab' := tab'[tract := map["StateAbbr" := state]];
    }
    var wanted := ContainsStr(outcomes, out);
    if wanted {
      tab' := tab'[tract := tab'[tract][out := val]];
    }
  }

  /** Tab over one more row is one more Step. */
  lemma TabSnoc(data: seq<seq<string>>, i: nat, c: Columns, outcomes: seq<string>)
    requires i < |data| && AllFit(data[..i], c) && Fits(data[i], c)
    ensures AllFit(data[..i + 1], c)
    ensures Tab(data[..i + 1], c, outcomes) == Step(Tab(data[..i], c, outcomes), data[i], c, outcomes)
  {
    var next := data[..i + 1];
    assert next == data[..i] + [data[i]];
    assert next[..i] == data[..i] && next[i] == data[i];
  }

  /** The loop over the tract table that appends one wide row per tract. */
  method BuildWide(tab: map<string, map<string, string>>, outcomes: seq<string>) returns (w: Wide)
    ensures w == WideOf(tab, outcomes)
  {
    var body: map<string, seq<string>> := map[];
    var left := tab.Keys;
    while left != {}
      invariant left <= tab.Keys
      invariant body.Keys == tab.Keys - left
      invariant forall t :: t in body ==> body[t] == [t, Cell(tab[t], "StateAbbr")] + Cells(tab[t], outcomes)
      decreases |left|
    {
      var t :| t in left;
      var row := EmitRow(tab[t], t, outcomes);
      body := body[t := row];
      left := left - {t};
    }
    assert body == WideOf(tab, outcomes).rows;
    w := Wide(["TractFIPS", "StateAbbr"] + outcomes, body);
  }

  /** The inner loop of the emit step: the tract, its StateAbbr, then one cell per outcome in order. */
  method EmitRow(m: map<string, string>, t: string, outcomes: seq<string>) returns (row: seq<string>)
    ensures row == [t, Cell(m, "StateAbbr")] + Cells(m, outcomes)
  {
    row := [t, Cell(m, "StateAbbr")];
    var j := 0;
    while j < |outcomes|
      invariant 0 <= j <= |outcomes|
      invariant row == [t, Cell(m, "StateAbbr")] + Cells(m, outcomes[..j])
    {
      assert outcomes[..j + 1][..j] == outcomes[..j];
      row := row + [Cell(m, outcomes[j])];
      j := j + 1;
    }
    assert outcomes[..j] == outcomes;
  }

  /** The wide table has a row for a tract iff some recognised data row names that tract. */
  lemma PivotKeys(data: seq<seq<string>>, c: Columns, outcomes: seq<string>, t: string)
    ensures t in WideOf(Tab(data, c, outcomes), outcomes).rows <==>
            exists i :: 0 <= i < |data| && Recognised(data[i], c) && data[i][c.loc] == t
  {
    TabKeys(data, c, outcomes, t);
  }

  /** A tract's row carries the state of the tract's first recognised data row. */
  lemma PivotState(data: seq<seq<string>>, c: Columns, outcomes: seq<string>, t: string, i: nat)
    requires i < |data| && Recognised(data[i], c) && data[i][c.loc] == t
    requires forall j :: 0 <= j < i ==> !(Recognised(data[j], c) && data[j][c.loc] == t)
    ensures t in WideOf(Tab(data, c, outcomes), outcomes).rows
    ensures WideOf(Tab(data, c, outcomes), outcomes).rows[t][1] == data[i][c.st]
  {
    TabState(data, c, outcomes, t, i);
  }

  /** A requested outcome is emitted with the Data_Value of the tract's last row measuring it. */
  lemma PivotValue(data: seq<seq<string>>, c: Columns, outcomes: seq<string>, t: string, k: nat, i: nat)
    requires k < |outcomes| && outcomes[k] != "StateAbbr" && outcomes[k] != ""
    requires i < |data| && Measures(data[i], c, t, outcomes[k])
    requires forall j :: i < j < |data| ==> !Measures(data[j], c, t, outcomes[k])
    ensures t in WideOf(Tab(data, c, outcomes), outcomes).rows
    ensures WideOf(Tab(data, c, outcomes), outcomes).rows[t][2 + k] == data[i][c.val]
  {
    TabCellLast(data, c, outcomes, t, outcomes[k], i);
    var row := WideOf(Tab(data, c, outcomes), outcomes).rows[t];
    assert row[2 + k] == row[2..][k];
  }

  /** A requested outcome no data row of the tract measures is emitted as "". */
  lemma PivotMissing(data: seq<seq<string>>, c: Columns, outcomes: seq<string>, t: string, k: nat)
    requires k < |outcomes| && outcomes[k] != "StateAbbr" && t in Tab(data, c, outcomes)
    requires forall i :: 0 <= i < |data| ==> !Measures(data[i], c, t, outcomes[k])
    ensures t in WideOf(Tab(data, c, outcomes), outcomes).rows
    ensures WideOf(Tab(data, c, outcomes), outcomes).rows[t][2 + k] == ""
  {
    TabEntry(data, c, outcomes, t);
    if outcomes[k] != "" {
      TabCellSet(data, c, outcomes, t, outcomes[k]);
    }
    var row := WideOf(Tab(data, c, outcomes), outcomes).rows[t];
    assert row[2 + k] == row[2..][k];
  }
}
