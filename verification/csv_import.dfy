/**
 * The tabular import, from the parsed table back to sessions.
 *
 * The text is only looked at for the blank check; splitting it into rows of
 * cells is the CSV parser's job, and its result (an error list and the rows)
 * is an input here. Whether a date string parses is the host's business and
 * is the input `isValidDate`.
 *
 * Every failure of the whole import, including an exception raised while a
 * row is rebuilt, ends in `Failed`, the `{ error: CSV_IMPORT_ERROR }` result.
 */
module CsvImport {
  import opened JsBuiltins
  import opened SessionModel

  /** What the CSV parser returns for the text. */
  datatype ParseResult = ParseResult(errors: seq<string>, data: seq<seq<string>>)

  /** The three outcomes: `{ error: CSV_IMPORT_ERROR }`, `{ sessions }` and
      `{ sessions, error: CSV_IMPORT_ERROR_PARTIAL }`. */
  datatype ImportOutcome =
    | Failed
    | Imported(sessions: seq<Session>)
    | PartiallyImported(sessions: seq<Session>)

  /** The per-row `{ session, success }` record. */
  datatype RowResult = Accepted(session: Session) | Rejected

  /** Rebuilding a row either finishes or throws (a cell with no column). */
  datatype RowAttempt = Threw | Finished(result: RowResult)

  /** The object each row starts from. */
  function FreshSession(): Session {
    Session(map["datetime" := "", "teaName" := ""], [], [])
  }

  /** What one cell under column `name` does to the session being rebuilt. */
  function Absorb(s: Session, name: string, cell: string): Session {
    if !StartsWith(name, SteepPrefix) && !StartsWith(name, CustomPrefix) then
      if name in StaticFields then s.(fields := s.fields[name := cell]) else s
    else if StartsWith(name, SteepPrefix) && cell != "" then
      s.(steeps := s.steeps + [cell])
    else if StartsWith(name, CustomPrefix) && cell != "" then
      s.(customFields := s.customFields + [CustomField(name, cell)])
    else s
  }

  /** The cells absorbed from left to right under their columns. */
  function Rebuild(s0: Session, cols: seq<string>, cells: seq<string>): Session
    requires |cols| == |cells|
  {
    if cells == [] then s0
    else
      var n := |cells| - 1;
      Absorb(Rebuild(s0, cols[..n], cells[..n]), cols[n], cells[n])
  }

  /** Static fields missing from the header are set to `""`. */
  function BackFill(s: Session, columns: seq<string>): Session {
    s.(fields := s.fields + MissingFields(StaticFields, columns))
  }

  /** The session a row of cells that fits under the header becomes. */
  function BuildRow(columns: seq<string>, cells: seq<string>): Session
    requires |cells| <= |columns|
  {
    BackFill(Rebuild(FreshSession(), columns[..|cells|], cells), columns)
  }

  /** `session.datetime`, an absent property read as `""`. */
  function DatetimeOf(s: Session): string {
    if "datetime" in s.fields then s.fields["datetime"] else ""
  }

  /** `!session.datetime || isNaN(new Date(session.datetime).getTime())`, negated. */
  predicate HasValidDatetime(s: Session, isValidDate: string -> bool) {
    DatetimeOf(s) != "" && isValidDate(DatetimeOf(s))
  }

  function CheckRow(columns: seq<string>, cells: seq<string>, isValidDate: string -> bool): RowResult
    requires |cells| <= |columns|
  {
    var s := BuildRow(columns, cells);
    if HasValidDatetime(s, isValidDate) then Accepted(s) else Rejected
  }

  predicate RowsFit(columns: seq<string>, rows: seq<seq<string>>) {
    forall i :: 0 <= i < |rows| ==> |rows[i]| <= |columns|
  }

  function RowResults(columns: seq<string>, rows: seq<seq<string>>, isValidDate: string -> bool): (r: seq<RowResult>)
    requires RowsFit(columns, rows)
    ensures |r| == |rows|
  {
    seq(|rows|, i requires 0 <= i < |rows| => CheckRow(columns, rows[i], isValidDate))
  }

  lemma RowResultsStep(columns: seq<string>, rows: seq<seq<string>>, r: nat, isValidDate: string -> bool)
    requires r < |rows| && RowsFit(columns, rows[..r]) && |rows[r]| <= |columns|
    ensures RowsFit(columns, rows[..r + 1])
    ensures RowResults(columns, rows[..r + 1], isValidDate)
         == RowResults(columns, rows[..r], isValidDate) + [CheckRow(columns, rows[r], isValidDate)]
  {
    assert rows[..r + 1][..r] == rows[..r];
  }

  /** The sessions of the accepted rows, in row order. */
  function AcceptedSessions(results: seq<RowResult>): seq<Session> {
    if results == [] then []
    else
      var init := AcceptedSessions(results[..|results| - 1]);
      match results[|results| - 1]
      case Accepted(s) => init + [s]
      case Rejected => init
  }

  /** `errorCount`: the number of rejected rows. */
  function FailureCount(results: seq<RowResult>): nat {
    if results == [] then 0
    else FailureCount(results[..|results| - 1]) + if results[|results| - 1].Rejected? then 1 else 0
  }

  /** The reduction of the per-row results to one outcome. */
  function Reconciled(results: seq<RowResult>): ImportOutcome {
    var errorCount := FailureCount(results);
    if errorCount == |results| then Failed
    else if errorCount > 0 then PartiallyImported(AcceptedSessions(results))
    else Imported(AcceptedSessions(results))
  }

  /** The whole import as a function of its inputs. */
  function ImportSpec(text: string, parsed: ParseResult, isValidDate: string -> bool): ImportOutcome {
    if IsBlank(text) then Failed
    else if |parsed.errors| > 0 then Failed
    else if |parsed.data| == 1 then Failed
    // `lines[0].includes` on an empty table throws
    else if |parsed.data| == 0 then Failed
    else if !("datetime" in parsed.data[0] && "teaName" in parsed.data[0]) then Failed
    // `columns[index].startsWith` past the header's end throws
    else if !RowsFit(parsed.data[0], parsed.data[1..]) then Failed
    else Reconciled(RowResults(parsed.data[0], parsed.data[1..], isValidDate))
  }

  /** The per-cell loop of one row: `Some` of the rebuilt session, or `None`
      when a cell has no column and `startsWith` throws. */
  method RebuildCells(columns: seq<string>, cells: seq<string>) returns (built: Option<Session>)
    ensures built.None? <==> |cells| > |columns|
    ensures built.Some? ==> built.value == Rebuild(FreshSession(), columns[..|cells|], cells)
  {
    var session := FreshSession();
    for i := 0 to |cells|
      invariant i <= |columns|
      invariant session == Rebuild(FreshSession(), columns[..i], cells[..i])
    {
      if i >= |columns| {
        return None;
      }
      var fieldName, field := columns[i], cells[i];
      if !StartsWith(fieldName, SteepPrefix) && !StartsWith(fieldName, CustomPrefix) {
        if fieldName in StaticFields {
          session := session.(fields := session.fields[fieldName := field]);
        }
      } else if StartsWith(fieldName, SteepPrefix) && field != "" {
        session := session.(steeps := session.steeps + [field]);
      } else if StartsWith(fieldName, CustomPrefix) && field != "" {
        session := session.(customFields := session.customFields + [CustomField(fieldName, field)]);
      }
      RebuildStep(FreshSession(), columns, cells, i);
    }
    assert cells[..|cells|] == cells;
    return Some(session);
  }

  lemma RebuildStep(s0: Session, columns: seq<string>, cells: seq<string>, i: nat)
    requires i < |cells| && i < |columns|
    ensures Rebuild(s0, columns[..i + 1], cells[..i + 1])
         == Absorb(Rebuild(s0, columns[..i], cells[..i]), columns[i], cells[i])
  {
    assert columns[..i + 1][..i] == columns[..i] && cells[..i + 1][..i] == cells[..i];
  }

  /** The back-fill loop: every static field missing from the header set to `""`. */
  method BackFillMissing(session: Session, columns: seq<string>) returns (filled: Session)
    ensures filled == BackFill(session, columns)
  {
    filled := session;
    for k := 0 to |StaticFields|
      invariant filled == session.(fields := session.fields + MissingFields(StaticFields[..k], columns))
    {
      var staticField := StaticFields[k];
      if staticField !in columns {
        filled := filled.(fields := filled.fields[staticField := ""]);
      }
      MissingFieldsStep(session.fields, columns, k);
    }
    assert StaticFields[..|StaticFields|] == StaticFields;
  }

  function MissingFields(names: seq<string>, columns: seq<string>): map<string, string> {
    map f | f in names && f !in columns :: ""
  }

  lemma MissingFieldsStep(m: map<string, string>, columns: seq<string>, k: nat)
    requires k < |StaticFields|
    ensures var f := StaticFields[k];
      m + MissingFields(StaticFields[..k + 1], columns)
      == if f in columns then m + MissingFields(StaticFields[..k], columns)
         else (m + MissingFields(StaticFields[..k], columns))[f := ""]
  {
    assert StaticFields[..k + 1] == StaticFields[..k] + [StaticFields[k]];
  }

  /** One row: rebuilt, back-filled and checked for a valid datetime. */
  method ImportRow(columns: seq<string>, cells: seq<string>, isValidDate: string -> bool)
    returns (attempt: RowAttempt)
    ensures attempt.Threw? <==> |cells| > |columns|
    ensures attempt.Finished? ==> attempt.result == CheckRow(columns, cells, isValidDate)
  {
    var built := RebuildCells(columns, cells);
    if built.None? {
      return Threw;
    }
    var session := BackFillMissing(built.value, columns);
    var datetime := if "datetime" in session.fields then session.fields["datetime"] else "";
    if datetime == "" || !isValidDate(datetime) {
      return Finished(Rejected);
    }
    return Finished(Accepted(session));
  }

  /** The accumulation loop over the per-row results and the outcome it picks. */
  method Reconcile(imported: seq<RowResult>) returns (outcome: ImportOutcome)
    ensures outcome == Reconciled(imported)
  {
    var sessions: seq<Session> := [];
    var errorCount := 0;
    for i := 0 to |imported|
      invariant sessions == AcceptedSessions(imported[..i])
      invariant errorCount == FailureCount(imported[..i])
    {
      assert imported[..i + 1][..i] == imported[..i];
      if imported[i].Accepted? {
        sessions := sessions + [imported[i].session];
      } else {
        errorCount := errorCount + 1;
      }
    }
    assert imported[..|imported|] == imported;
    if errorCount == |imported| {
      return Failed;
    }
    if errorCount > 0 {
      return PartiallyImported(sessions);
    }
    return Imported(sessions);
  }

  /** `importFromCSV` over the parsed table. */
  method ImportFromCsv(text: string, parsed: ParseResult, isValidDate: string -> bool)
    returns (outcome: ImportOutcome)
    ensures outcome == ImportSpec(text, parsed, isValidDate)
  {
    if IsBlank(text) {
      return Failed;
    }
    if |parsed.errors| > 0 {
      return Failed;
    }
    var lines := parsed.data;
    if |lines| == 1 {
      return Failed;
    }
    if |lines| == 0 {
      return Failed;
    }
    var hasDateTimeColumn := "datetime" in lines[0];
    var hasNameColumn := "teaName" in lines[0];
    if !(hasDateTimeColumn && hasNameColumn) {
      return Failed;
    }
    var columns, rows := lines[0], lines[1..];
    var imported: seq<RowResult> := [];
    for r := 0 to |rows|
      invariant RowsFit(columns, rows[..r])
      invariant imported == RowResults(columns, rows[..r], isValidDate)
    {
      var attempt := ImportRow(columns, rows[r], isValidDate);
      if attempt.Threw? {
        assert !RowsFit(parsed.data[0], parsed.data[1..]) by {
          assert parsed.data[1..][r] == rows[r];
        }
        return Failed;
      }
      imported := imported + [attempt.result];
      RowResultsStep(columns, rows, r, isValidDate);
    }
    assert rows[..|rows|] == rows;
    outcome := Reconcile(imported);
  }

  // ---------------------------------------------------------------------
  // Properties of one row

  /** Cells are absorbed left to right: rebuilding under `c1 + c2` is
      rebuilding under `c1` and then continuing under `c2`, so steeps and
      custom fields are appended in column order. */
  lemma {:induction false} RebuildAppend(s0: Session, c1: seq<string>, x1: seq<string>, c2: seq<string>, x2: seq<string>)
    requires |c1| == |x1| && |c2| == |x2|
    ensures Rebuild(s0, c1 + c2, x1 + x2) == Rebuild(Rebuild(s0, c1, x1), c2, x2)
  {
    if x2 == [] {
      assert c1 + c2 == c1 && x1 + x2 == x1;
    } else {
      var n := |x2| - 1;
      assert (c1 + c2)[..|c1| + n] == c1 + c2[..n];
      assert (x1 + x2)[..|x1| + n] == x1 + x2[..n];
      RebuildAppend(s0, c1, x1, c2[..n], x2[..n]);
    }
  }

  /** One cell changes the properties only under a static column, by
      writing the cell there. */
  lemma AbsorbFields(s: Session, name: string, cell: string)
    ensures Absorb(s, name, cell).fields == if name in StaticFields then s.fields[name := cell] else s.fields
  {
    if name in StaticFields {
      StaticFieldsWellFormed();
      var j :| 0 <= j < |StaticFields| && StaticFields[j] == name;
    }
  }

  /** What rebuilding does to the static part: only static columns write;
      other names keep their state. */
  lemma {:induction false} RebuildFields(s0: Session, cols: seq<string>, cells: seq<string>)
    requires |cols| == |cells|
    ensures var s := Rebuild(s0, cols, cells);
      && (forall f :: f in s.fields ==> f in s0.fields || f in StaticFields)
      && (forall f :: f !in cols ==> (f in s.fields <==> f in s0.fields))
      && (forall f :: f !in cols && f in s0.fields ==> s.fields[f] == s0.fields[f])
      && (forall f :: f in s0.fields ==> f in s.fields)
  {
    if cells != [] {
      var n := |cells| - 1;
      RebuildFields(s0, cols[..n], cells[..n]);
      AbsorbFields(Rebuild(s0, cols[..n], cells[..n]), cols[n], cells[n]);
      assert cols == cols[..n] + [cols[n]];
    }
  }

  /** The last cell under a static column gives that property its value. */
  lemma {:induction false} RebuildLastWins(s0: Session, cols: seq<string>, cells: seq<string>, j: nat)
    requires |cols| == |cells| && j < |cols|
    requires cols[j] in StaticFields && cols[j] !in cols[j + 1..]
    ensures cols[j] in Rebuild(s0, cols, cells).fields && Rebuild(s0, cols, cells).fields[cols[j]] == cells[j]
  {
    var n := |cells| - 1;
    AbsorbFields(Rebuild(s0, cols[..n], cells[..n]), cols[n], cells[n]);
    if j < n {
      assert cols[n] in cols[j + 1..];
      assert cols[..n][j + 1..] == cols[j + 1..n];
      RebuildLastWins(s0, cols[..n], cells[..n], j);
    }
  }

  /** What rebuilding appends: only non-empty steeps, and custom fields named
      after their `custom-` column with a non-empty value; at most one entry
      per cell. */
  lemma {:induction false} RebuildLists(s0: Session, cols: seq<string>, cells: seq<string>)
    requires |cols| == |cells|
    ensures var s := Rebuild(s0, cols, cells);
      && |s0.steeps| <= |s.steeps| && |s0.customFields| <= |s.customFields|
      && s.steeps[..|s0.steeps|] == s0.steeps
      && s.customFields[..|s0.customFields|] == s0.customFields
      && |s.steeps| + |s.customFields| <= |s0.steeps| + |s0.customFields| + |cells|
      && (forall k :: |s0.steeps| <= k < |s.steeps| ==> s.steeps[k] != "")
      && (forall k :: |s0.customFields| <= k < |s.customFields| ==>
            StartsWith(s.customFields[k].name, CustomPrefix) && s.customFields[k].value != ""
            && s.customFields[k].name in cols)
  {
    if cells != [] {
      var n := |cells| - 1;
      RebuildLists(s0, cols[..n], cells[..n]);
      var prev := Rebuild(s0, cols[..n], cells[..n]);
      var s := Rebuild(s0, cols, cells);
      assert s == Absorb(prev, cols[n], cells[n]);
      assert s.steeps[..|prev.steeps|] == prev.steeps;
      assert s.customFields[..|prev.customFields|] == prev.customFields;
      forall k | |s0.customFields| <= k < |s.customFields|
        ensures s.customFields[k].name in cols
      {
        if k < |prev.customFields| {
          assert prev.customFields[k].name in cols[..n];
        }
      }
    }
  }

  /** The static part of an imported row: only static field names; a static
      field the header lacks is `""`; a static column's last cell in the row
      gives its value; a header field beyond a short row's end stays unset,
      except the two the fresh session starts with. */
  lemma ImportedRowFields(columns: seq<string>, cells: seq<string>)
    requires |cells| <= |columns|
    ensures var s := BuildRow(columns, cells);
      && (forall f :: f in s.fields ==> f in StaticFields)
      && "datetime" in s.fields && "teaName" in s.fields
      && (forall f :: f in StaticFields && f !in columns ==> f in s.fields && s.fields[f] == "")
      && (forall j :: 0 <= j < |cells| && columns[j] in StaticFields && columns[j] !in columns[j + 1..|cells|] ==>
            columns[j] in s.fields && s.fields[columns[j]] == cells[j])
      && (forall f :: f in columns && f !in columns[..|cells|] && f != "datetime" && f != "teaName" ==>
            f !in s.fields)
  {
    RowFieldsStatic(columns, cells);
    RowFieldsLastWins(columns, cells);
    RowFieldsUnset(columns, cells);
  }

  /** An imported row has only static names, always the two the fresh session
      starts with, and `""` for every static field the header lacks. */
  lemma RowFieldsStatic(columns: seq<string>, cells: seq<string>)
    requires |cells| <= |columns|
    ensures var s := BuildRow(columns, cells);
      && (forall f :: f in s.fields ==> f in StaticFields)
      && "datetime" in s.fields && "teaName" in s.fields
      && (forall f :: f in StaticFields && f !in columns ==> f in s.fields && s.fields[f] == "")
  {
    var cols := columns[..|cells|];
    var r := Rebuild(FreshSession(), cols, cells);
    var missing := MissingFields(StaticFields, columns);
    assert BuildRow(columns, cells).fields == r.fields + missing;
    RebuildFields(FreshSession(), cols, cells);
    assert "datetime" in StaticFields && "teaName" in StaticFields;
  }

  /** A static column's last cell in the row gives its value. */
  lemma RowFieldsLastWins(columns: seq<string>, cells: seq<string>)
    requires |cells| <= |columns|
    ensures var s := BuildRow(columns, cells);
      forall j :: 0 <= j < |cells| && columns[j] in StaticFields && columns[j] !in columns[j + 1..|cells|] ==>
        columns[j] in s.fields && s.fields[columns[j]] == cells[j]
  {
    var cols := columns[..|cells|];
    var missing := MissingFields(StaticFields, columns);
    var s := BuildRow(columns, cells);
    assert s.fields == Rebuild(FreshSession(), cols, cells).fields + missing;
    forall j | 0 <= j < |cells| && columns[j] in StaticFields && columns[j] !in columns[j + 1..|cells|]
      ensures columns[j] in s.fields && s.fields[columns[j]] == cells[j]
    {
      assert cols[j] == columns[j] && cols[j + 1..] == columns[j + 1..|cells|];
      RebuildLastWins(FreshSession(), cols, cells, j);
      assert columns[j] !in missing;
    }
  }

  /** A header field beyond a short row's end stays unset, except the two the
      fresh session starts with. */
  lemma RowFieldsUnset(columns: seq<string>, cells: seq<string>)
    requires |cells| <= |columns|
    ensures var s := BuildRow(columns, cells);
      forall f :: f in columns && f !in columns[..|cells|] && f != "datetime" && f != "teaName" ==> f !in s.fields
  {
    var cols := columns[..|cells|];
    var missing := MissingFields(StaticFields, columns);
    var s := BuildRow(columns, cells);
    assert s.fields == Rebuild(FreshSession(), cols, cells).fields + missing;
    RebuildFields(FreshSession(), cols, cells);
    forall f | f in columns && f !in cols && f != "datetime" && f != "teaName"
      ensures f !in s.fields
    {
      assert f !in missing;
      assert f !in FreshSession().fields;
    }
  }

  /** The lists of an imported row: non-empty steeps, and custom fields with a
      `custom-` name from the header and a non-empty value, at most one entry
      per cell. */
  lemma ImportedRowLists(columns: seq<string>, cells: seq<string>)
    requires |cells| <= |columns|
    ensures var s := BuildRow(columns, cells);
      && |s.steeps| + |s.customFields| <= |cells|
      && (forall k :: 0 <= k < |s.steeps| ==> s.steeps[k] != "")
      && (forall k :: 0 <= k < |s.customFields| ==>
            StartsWith(s.customFields[k].name, CustomPrefix) && s.customFields[k].value != ""
            && s.customFields[k].name in columns)
  {
    var cols := columns[..|cells|];
    RebuildLists(FreshSession(), cols, cells);
    var s := BuildRow(columns, cells);
    forall k | 0 <= k < |s.customFields| ensures s.customFields[k].name in columns {
      var i :| 0 <= i < |cols| && cols[i] == s.customFields[k].name;
      assert columns[i] == cols[i];
    }
  }

  // ---------------------------------------------------------------------
  // The outcome

  lemma {:induction false} ResultsPartition(results: seq<RowResult>)
    ensures |AcceptedSessions(results)| + FailureCount(results) == |results|
    ensures FailureCount(results) == |results| <==> forall i :: 0 <= i < |results| ==> results[i].Rejected?
    ensures FailureCount(results) == 0 <==> forall i :: 0 <= i < |results| ==> results[i].Accepted?
  {
    if results != [] {
      var init := results[..|results| - 1];
      ResultsPartition(init);
      assert forall i :: 0 <= i < |init| ==> init[i] == results[i];
      if FailureCount(results) == |results| {
        assert FailureCount(init) == |init| && results[|results| - 1].Rejected?;
      }
    }
  }

  /** Accepted sessions keep their row order: the accepted sessions of `a + b`
      are those of `a` followed by those of `b`. */
  lemma {:induction false} AcceptedAppend(a: seq<RowResult>, b: seq<RowResult>)
    ensures AcceptedSessions(a + b) == AcceptedSessions(a) + AcceptedSessions(b)
  {
    if b == [] {
      assert a + b == a;
    } else {
      assert (a + b)[..|a + b| - 1] == a + b[..|b| - 1];
      AcceptedAppend(a, b[..|b| - 1]);
    }
  }

  /** When every row is accepted, the sessions are the rows' sessions in order. */
  lemma {:induction false} AllAccepted(results: seq<RowResult>)
    requires forall i :: 0 <= i < |results| ==> results[i].Accepted?
    ensures |AcceptedSessions(results)| == |results|
    ensures forall i :: 0 <= i < |results| ==> AcceptedSessions(results)[i] == results[i].session
  {
    if results != [] {
      AllAccepted(results[..|results| - 1]);
    }
  }

  /** The three outcomes of the reduction: all rows rejected (or none) gives
      `Failed`; none rejected gives every session and no error; otherwise the
      accepted sessions, in row order, with the partial error. */
  lemma ReconcileOutcomes(results: seq<RowResult>)
    ensures Reconciled(results).Failed? <==> forall i :: 0 <= i < |results| ==> results[i].Rejected?
    ensures Reconciled(results).Imported? <==>
      |results| > 0 && forall i :: 0 <= i < |results| ==> results[i].Accepted?
    ensures Reconciled(results).PartiallyImported? <==>
      (exists i :: 0 <= i < |results| && results[i].Accepted?) && (exists i :: 0 <= i < |results| && results[i].Rejected?)
    ensures !Reconciled(results).Failed? ==>
      Reconciled(results).sessions == AcceptedSessions(results) && |Reconciled(results).sessions| > 0
    ensures Reconciled(results).Imported? ==> |Reconciled(results).sessions| == |results|
    ensures Reconciled(results).PartiallyImported? ==> |Reconciled(results).sessions| < |results|
  {
    ResultsPartition(results);
  }

  /** The input passes every whole-file check. */
  predicate WellFormedInput(text: string, parsed: ParseResult) {
    && !IsBlank(text)
    && |parsed.errors| == 0
    && |parsed.data| >= 2
    && "datetime" in parsed.data[0] && "teaName" in parsed.data[0]
    && RowsFit(parsed.data[0], parsed.data[1..])
  }

  /** Blank text, parser errors, a lone line, a header without `datetime` or
      `teaName`, and a row wider than the header all fail the whole import. */
  lemma ImportRejectsMalformed(text: string, parsed: ParseResult, isValidDate: string -> bool)
    requires !WellFormedInput(text, parsed)
    ensures ImportSpec(text, parsed, isValidDate) == Failed
  {
  }

  /** On well-formed input a row is kept iff its datetime is valid, and the
      outcome follows from the rows: all rejected fails, none rejected imports
      every row's session in order, otherwise the kept ones come back with the
      partial error. */
  /** Well-formed input whose every row rebuilds to the matching session,
      each with a valid datetime, imports exactly those sessions. */
  lemma ImportAllValid(text: string, parsed: ParseResult, isValidDate: string -> bool, expected: seq<Session>)
    requires WellFormedInput(text, parsed)
    requires |parsed.data| == |expected| + 1
    requires forall i :: 0 <= i < |expected| ==>
      BuildRow(parsed.data[0], parsed.data[1..][i]) == expected[i] && HasValidDatetime(expected[i], isValidDate)
    ensures ImportSpec(text, parsed, isValidDate) == Imported(expected)
  {
    ImportOutcomes(text, parsed, isValidDate);
    var out := ImportSpec(text, parsed, isValidDate);
    assert out.Imported?;
    assert out.sessions == expected;
  }

  lemma ImportOutcomes(text: string, parsed: ParseResult, isValidDate: string -> bool)
    requires WellFormedInput(text, parsed)
    ensures var columns, rows, out := parsed.data[0], parsed.data[1..], ImportSpec(text, parsed, isValidDate);
      && (out.Failed? <==>
            forall i :: 0 <= i < |rows| ==> !HasValidDatetime(BuildRow(columns, rows[i]), isValidDate))
      && (out.Imported? <==>
            forall i :: 0 <= i < |rows| ==> HasValidDatetime(BuildRow(columns, rows[i]), isValidDate))
      && (out.Imported? ==>
            |out.sessions| == |rows| && forall i :: 0 <= i < |rows| ==> out.sessions[i] == BuildRow(columns, rows[i]))
      && (out.PartiallyImported? ==>
            0 < |out.sessions| < |rows|
            && out.sessions == AcceptedSessions(RowResults(columns, rows, isValidDate))
            && forall k :: 0 <= k < |out.sessions| ==> HasValidDatetime(out.sessions[k], isValidDate))
  {
    var columns, rows := parsed.data[0], parsed.data[1..];
    var results := RowResults(columns, rows, isValidDate);
    ReconcileOutcomes(results);
    assert forall i :: 0 <= i < |rows| ==>
      (results[i].Accepted? <==> HasValidDatetime(BuildRow(columns, rows[i]), isValidDate));
    if ImportSpec(text, parsed, isValidDate).Imported? {
      AllAccepted(results);
    }
    if ImportSpec(text, parsed, isValidDate).PartiallyImported? {
      AcceptedAreValid(results, columns, rows, isValidDate);
    }
  }

  /** The session each row rebuilds to, one per row. */
  function BuiltRows(columns: seq<string>, rows: seq<seq<string>>): (r: seq<Session>)
    requires RowsFit(columns, rows)
    ensures |r| == |rows|
  {
    seq(|rows|, i requires 0 <= i < |rows| => BuildRow(columns, rows[i]))
  }

  /** The datetime check as a filter condition. */
  function ValidIn(isValidDate: string -> bool): Session -> bool {
    s => HasValidDatetime(s, isValidDate)
  }

  /** The accepted sessions are the rebuilt rows whose datetime is valid, in
      row order. */
  lemma {:induction false} AcceptedInRowOrder(columns: seq<string>, rows: seq<seq<string>>, isValidDate: string -> bool)
    requires RowsFit(columns, rows)
    ensures AcceptedSessions(RowResults(columns, rows, isValidDate))
         == Filter(BuiltRows(columns, rows), ValidIn(isValidDate))
  {
    if rows != [] {
      var n := |rows| - 1;
      var results := RowResults(columns, rows, isValidDate);
      var x := BuildRow(columns, rows[n]);
      assert RowsFit(columns, rows[..n]);
      assert results[..n] == RowResults(columns, rows[..n], isValidDate);
      AcceptedInRowOrder(columns, rows[..n], isValidDate);
      assert BuiltRows(columns, rows) == BuiltRows(columns, rows[..n]) + [x];
      FilterAppend(BuiltRows(columns, rows[..n]), [x], ValidIn(isValidDate));
      assert Filter([x], ValidIn(isValidDate)) == if HasValidDatetime(x, isValidDate) then [x] else [];
      assert results[n] == CheckRow(columns, rows[n], isValidDate);
    }
  }

  /** On well-formed input, whatever the import keeps is exactly the rebuilt
      rows with a valid datetime, in row order. */
  lemma ImportKeepsValidRows(text: string, parsed: ParseResult, isValidDate: string -> bool)
    requires WellFormedInput(text, parsed)
    ensures var out := ImportSpec(text, parsed, isValidDate);
      !out.Failed? ==> out.sessions == Filter(BuiltRows(parsed.data[0], parsed.data[1..]), ValidIn(isValidDate))
  {
    var columns, rows := parsed.data[0], parsed.data[1..];
    ReconcileOutcomes(RowResults(columns, rows, isValidDate));
    AcceptedInRowOrder(columns, rows, isValidDate);
  }

  lemma {:induction false} AcceptedAreValid(results: seq<RowResult>, columns: seq<string>, rows: seq<seq<string>>, isValidDate: string -> bool)
    requires RowsFit(columns, rows) && results == RowResults(columns, rows, isValidDate)
    ensures forall k :: 0 <= k < |AcceptedSessions(results)| ==> HasValidDatetime(AcceptedSessions(results)[k], isValidDate)
  {
    if results != [] {
      var n := |results| - 1;
      assert RowsFit(columns, rows[..n]);
      assert results[..n] == RowResults(columns, rows[..n], isValidDate);
      AcceptedAreValid(results[..n], columns, rows[..n], isValidDate);
    }
  }
}
