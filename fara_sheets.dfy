/** Selection of the FARA worksheet to stage as CSV: the workbook's sheets are scanned in order and the
    rows of the first sheet whose header names a tract-identifier column are collected. A sheet is its
    sequence of rows, or None when its row reader could not be opened. */
module FaraSheets {
  import opened Wrappers
  import opened Text
  import opened Seqs

  type Row = seq<string>
  type Sheet = seq<Row>

  /** The header cell names a tract identifier: "GEOID" or "CensusTract", ignoring case. */
  predicate KeyCell(h: string)
  {
    EqualFold(h, "GEOID") || EqualFold(h, "CensusTract")
  }

  /** A header row that makes its sheet acceptable. */
  predicate Accepts(hdr: Row)
  {
    hdr != [] && (KeyCell(hdr[0]) || Accepts(hdr[1..]))
  }

  /** A header is accepted iff one of its cells is a key cell. */
  lemma {:induction false} AcceptsSpec(hdr: Row)
    ensures Accepts(hdr) <==> exists i :: 0 <= i < |hdr| && KeyCell(hdr[i])
  {
    if hdr != [] {
      AcceptsSpec(hdr[1..]);
      assert forall i :: 1 <= i < |hdr| ==> hdr[1..][i - 1] == hdr[i];
    }
  }

  /** The scan over the header cells, stopping at the first key cell. */
  method HasKeyColumn(hdr: Row) returns (found: bool)
    ensures found <==> Accepts(hdr)
  {
    var i := 0;
    while i < |hdr|
      invariant 0 <= i <= |hdr|
      invariant Accepts(hdr) <==> Accepts(hdr[i..])
    {
      assert hdr[i..][1..] == hdr[i + 1..];
      if EqualFold(hdr[i], "GEOID") || EqualFold(hdr[i], "CensusTract") {
        return true;
      }
      i := i + 1;
    }
    return false;
  }

  predicate NonEmptyRow(r: Row)
  {
    r != []
  }

  /** The collected rows after reading one sheet, starting from acc: a sheet without rows changes nothing,
      a rejected header clears everything collected so far, and an accepted header is appended together
      with the sheet's non-empty rows, in order. */
  function SheetStep(acc: seq<Row>, sh: Sheet): seq<Row>
  {
    if sh == [] then acc
    else if !Accepts(sh[0]) then []
    else acc + [sh[0]] + Filter(sh[1..], NonEmptyRow)
  }

  /** The rows collected by the sheet loop from acc on: an unreadable sheet is skipped, and the loop stops
      after the first sheet at whose end more than one row has been collected. */
  function Scan(acc: seq<Row>, sheets: seq<Option<Sheet>>): seq<Row>
    decreases |sheets|
  {
    if sheets == [] then acc
    else
      var next := match sheets[0] case None => acc case Some(sh) => SheetStep(acc, sh);
      if |next| > 1 then next else Scan(next, sheets[1..])
  }

  datatype FaraError = NoFaraSheet

  /** The body of one sheet iteration: the row-iterator loop over that sheet. */
  method ReadSheet(acc: seq<Row>, sh: Sheet) returns (rows: seq<Row>)
    ensures rows == SheetStep(acc, sh)
  {
    if |sh| == 0 {
      return acc;
    }
    var found := HasKeyColumn(sh[0]);
    if !found {
      return [];
    }
    rows := acc + [sh[0]];
    var k := 1;
    while k < |sh|
      invariant 1 <= k <= |sh|
      invariant rows == acc + [sh[0]] + Filter(sh[1..k], NonEmptyRow)
    {
      var row := sh[k];
      FilterAppend(sh[1..k], [row], NonEmptyRow);
      assert sh[1..k + 1] == sh[1..k] + [row];
      if |row| != 0 {
        rows := rows + [row];
      }
      k := k + 1;
    }
    assert sh[1..k] == sh[1..];
  }

  /** faraXLSXToCSV without the file handling: the rows to write, or the error for a workbook without a
      usable sheet (at most one row collected). */
  method FaraRows(sheets: seq<Option<Sheet>>) returns (r: Result<seq<Row>, FaraError>)
    ensures |Scan([], sheets)| <= 1 <==> r == Failure(NoFaraSheet)
    ensures |Scan([], sheets)| > 1 <==> r == Success(Scan([], sheets))
  {
    var rows: seq<Row> := [];
    var i := 0;
    while i < |sheets|
      invariant 0 <= i <= |sheets|
      invariant |rows| <= 1
      invariant Scan(rows, sheets[i..]) == Scan([], sheets)
    {
      assert sheets[i..][1..] == sheets[i + 1..];
      match sheets[i] {
        case None =>
        case Some(sh) =>
          rows := ReadSheet(rows, sh);
      }
      if |rows| > 1 {
        break;
      }
      i := i + 1;
    }
    if |rows| <= 1 {
      return Failure(NoFaraSheet);
    }
    return Success(rows);
  }

  /** Whatever the scan returns is empty or starts with an accepted header, and holds no empty row. */
  lemma {:induction false} ScanShape(acc: seq<Row>, sheets: seq<Option<Sheet>>)
    requires acc == [] || Accepts(acc[0])
    requires forall k :: 0 <= k < |acc| ==> acc[k] != []
    ensures Scan(acc, sheets) == [] || Accepts(Scan(acc, sheets)[0])
    ensures forall k :: 0 <= k < |Scan(acc, sheets)| ==> Scan(acc, sheets)[k] != []
    decreases |sheets|
  {
    if sheets != [] {
      var next := match sheets[0] case None => acc case Some(sh) => SheetStep(acc, sh);
      if sheets[0].Some? && sheets[0].value != [] && Accepts(sheets[0].value[0]) {
        var sh := sheets[0].value;
        var kept := Filter(sh[1..], NonEmptyRow);
        FilterSpec(sh[1..], NonEmptyRow);
        assert next == acc + [sh[0]] + kept;
        forall k | 0 <= k < |next|
          ensures next[k] != []
        {
          if k >= |acc| + 1 {
            assert next[k] == kept[k - |acc| - 1];
          }
        }
      }
      if |next| <= 1 {
        ScanShape(next, sheets[1..]);
      }
    }
  }

  /** A sheet whose reader fails leaves the collected rows as they were. */
  lemma SkipUnreadable(acc: seq<Row>, rest: seq<Option<Sheet>>)
    requires |acc| <= 1
    ensures Scan(acc, [None] + rest) == Scan(acc, rest)
  {
    assert ([None] + rest)[1..] == rest;
  }

  /** A sheet whose header names no tract-identifier column discards everything collected so far. */
  lemma RejectedHeaderResets(acc: seq<Row>, sh: Sheet, rest: seq<Option<Sheet>>)
    requires sh != [] && !Accepts(sh[0])
    ensures Scan(acc, [Some(sh)] + rest) == Scan([], rest)
  {
    assert ([Some(sh)] + rest)[1..] == rest;
  }

  /** Scanning stops with the first sheet that leaves more than one row collected: later sheets are never read. */
  lemma StopsAtFirstFull(acc: seq<Row>, sh: Sheet, rest: seq<Option<Sheet>>)
    requires |SheetStep(acc, sh)| > 1
    ensures Scan(acc, [Some(sh)] + rest) == SheetStep(acc, sh)
  {
  }

  /** A sheet is usable when it can be read, its header names a tract-identifier column and it has at
      least one non-empty data row. */
  predicate Usable(s: Option<Sheet>)
  {
    s.Some? && s.value != [] && Accepts(s.value[0]) && Filter(s.value[1..], NonEmptyRow) != []
  }

  /** The rows staged from a usable sheet: its header and its non-empty rows. */
  function SheetRows(sh: Sheet): seq<Row>
    requires sh != []
  {
    [sh[0]] + Filter(sh[1..], NonEmptyRow)
  }

  /** The selection the function's comment describes: the first usable sheet, on its own. */
  function FirstUsable(sheets: seq<Option<Sheet>>): (r: Result<seq<Row>, FaraError>)
  {
    if sheets == [] then Failure(NoFaraSheet)
    else if Usable(sheets[0]) then Success(SheetRows(sheets[0].value))
    else FirstUsable(sheets[1..])
  }

  /** The corrected selection succeeds iff some sheet is usable, and then stages the first usable sheet's
      header followed by its non-empty rows: at least two rows, none of them empty. */
  lemma {:induction false} FirstUsableSpec(sheets: seq<Option<Sheet>>)
    ensures FirstUsable(sheets).Success? <==> exists k :: 0 <= k < |sheets| && Usable(sheets[k])
    ensures FirstUsable(sheets).Success? ==>
              exists k :: 0 <= k < |sheets| && Usable(sheets[k]) &&
                          (forall j :: 0 <= j < k ==> !Usable(sheets[j])) &&
                          FirstUsable(sheets).value == SheetRows(sheets[k].value)
    ensures FirstUsable(sheets).Success? ==>
              |FirstUsable(sheets).value| >= 2 && Accepts(FirstUsable(sheets).value[0]) &&
              forall j :: 0 <= j < |FirstUsable(sheets).value| ==> FirstUsable(sheets).value[j] != []
  {
    if sheets != [] {
      var rest := sheets[1..];
      assert forall k :: 1 <= k < |sheets| ==> sheets[k] == rest[k - 1];
      FirstUsableSpec(rest);
      if Usable(sheets[0]) {
        var sh := sheets[0].value;
        var kept := Filter(sh[1..], NonEmptyRow);
        FilterSpec(sh[1..], NonEmptyRow);
        var rows := [sh[0]] + kept;
        assert sh[0] != [];
        forall j | 0 <= j < |rows|
          ensures rows[j] != []
        {
          if j > 0 {
            assert rows[j] == kept[j - 1];
          }
        }
      } else if FirstUsable(rest).Success? {
        var k :| 0 <= k < |rest| && Usable(rest[k]) && (forall j :: 0 <= j < k ==> !Usable(rest[j])) &&
                 FirstUsable(rest).value == SheetRows(rest[k].value);
        assert Usable(sheets[k + 1]);
        assert forall j :: 1 <= j < k + 1 ==> !Usable(sheets[j]);
      }
    }
  }

  /** A readable sheet whose header is accepted but which adds no non-empty data row. */
  predicate HeaderOnly(s: Option<Sheet>)
  {
    s.Some? && s.value != [] && Accepts(s.value[0]) && Filter(s.value[1..], NonEmptyRow) == []
  }

  /** Without header-only sheets, the loop as written stages exactly the corrected selection. */
  lemma {:induction false} AgreesWithoutHeaderOnly(sheets: seq<Option<Sheet>>)
    requires forall k :: 0 <= k < |sheets| ==> !HeaderOnly(sheets[k])
    ensures |Scan([], sheets)| > 1 <==> FirstUsable(sheets).Success?
    ensures FirstUsable(sheets).Success? ==> Scan([], sheets) == FirstUsable(sheets).value
  {
    if sheets != [] {
      assert forall k :: 1 <= k < |sheets| ==> sheets[k] == sheets[1..][k - 1];
      AgreesWithoutHeaderOnly(sheets[1..]);
    }
  }

  /** A header-only accepted sheet followed by another accepted sheet: the loop as written stages both
      headers, one after the other, where the corrected selection stages the second sheet alone. */
  lemma DuplicatedHeader()
    ensures Scan([], [Some([["GEOID"]]), Some([["GEOID", "LILATracts_1And10"], ["01001020100", "1"]])]) ==
            [["GEOID"], ["GEOID", "LILATracts_1And10"], ["01001020100", "1"]]
    ensures FirstUsable([Some([["GEOID"]]), Some([["GEOID", "LILATracts_1And10"], ["01001020100", "1"]])]) ==
            Success([["GEOID", "LILATracts_1And10"], ["01001020100", "1"]])
  {
    var s1: Sheet := [["GEOID"]];
    var s2: Sheet := [["GEOID", "LILATracts_1And10"], ["01001020100", "1"]];
    assert Accepts(s1[0]) && Accepts(s2[0]) by { EqualFoldRefl("GEOID"); }
    assert s1[1..] == [];
    var d := s2[1..];
    assert d == [["01001020100", "1"]] && d[1..] == [];
    assert Filter(d, NonEmptyRow) == [["01001020100", "1"]];
    var sheets := [Some(s1), Some(s2)];
    assert sheets[1..] == [Some(s2)];
    var acc := SheetStep([], s1);
    assert acc == [["GEOID"]];
    assert Scan([], sheets) == Scan(acc, [Some(s2)]);
    assert SheetStep(acc, s2) == [["GEOID"], ["GEOID", "LILATracts_1And10"], ["01001020100", "1"]];
    assert !Usable(Some(s1)) && Usable(Some(s2));
    assert FirstUsable([Some(s2)]) == Success(SheetRows(s2));
    assert Scan(acc, [Some(s2)]) == SheetStep(acc, s2);
    assert FirstUsable(sheets) == FirstUsable([Some(s2)]);
    assert SheetRows(s2) == [["GEOID", "LILATracts_1And10"], ["01001020100", "1"]];
  }

  /** Two header-only accepted sheets: the loop as written reports success with no data row at all, where
      the corrected selection reports the missing sheet. */
  lemma HeadersWithoutData()
    ensures Scan([], [Some([["GEOID"]]), Some([["CensusTract"]])]) == [["GEOID"], ["CensusTract"]]
    ensures FirstUsable([Some([["GEOID"]]), Some([["CensusTract"]])]) == Failure(NoFaraSheet)
  {
    var s1: Sheet := [["GEOID"]];
    var s2: Sheet := [["CensusTract"]];
    assert Accepts(s1[0]) by { EqualFoldRefl("GEOID"); }
    assert Accepts(s2[0]) by { EqualFoldRefl("CensusTract"); }
    assert s1[1..] == [] && s2[1..] == [];
    var sheets := [Some(s1), Some(s2)];
    assert sheets[1..] == [Some(s2)];
    var acc := SheetStep([], s1);
    assert acc == [["GEOID"]];
    assert Scan([], sheets) == Scan(acc, [Some(s2)]);
    assert SheetStep(acc, s2) == [["GEOID"], ["CensusTract"]];
    assert Scan(acc, [Some(s2)]) == SheetStep(acc, s2);
    assert !Usable(Some(s1)) && !Usable(Some(s2));
    assert [Some(s2)][1..] == [];
    assert FirstUsable(sheets) == FirstUsable([Some(s2)]);
  }

  /** faraXLSXToCSV with the collected rows reset at the start of every sheet: the corrected loop, which
      stages the first usable sheet. */
  method FaraRowsFixed(sheets: seq<Option<Sheet>>) returns (r: Result<seq<Row>, FaraError>)
    ensures r == FirstUsable(sheets)
  {
    var i := 0;
    while i < |sheets|
      invariant 0 <= i <= |sheets|
      invariant FirstUsable(sheets[i..]) == FirstUsable(sheets)
    {
      assert sheets[i..][1..] == sheets[i + 1..];
      match sheets[i] {
        case None =>
        case Some(sh) =>
          var rows := ReadSheet([], sh);
          if |rows| > 1 {
            assert sheets[i..][0] == sheets[i];
            assert rows == SheetRows(sh);
            return Success(rows);
          }
      }
      i := i + 1;
    }
    return Failure(NoFaraSheet);
  }
}
