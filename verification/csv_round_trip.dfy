/**
 * Exporting a list of sessions to the table and importing that table gives
 * the list back, up to what the table cannot carry: only the static
 * properties have columns, so any other property (such as the `teaBrand` the
 * form saves) is dropped and an absent static property comes back as `""`;
 * empty steeps and empty-valued custom fields are dropped; and each session's
 * custom fields come back one per column, in the header's column order, the
 * first field of each name winning.
 *
 * The CSV writer and parser are taken to be inverse on the table (the
 * parser returns the written rows and no error); the import's blank check
 * sees the written text.
 */
module CsvRoundTrip {
  import opened JsBuiltins
  import opened SessionModel
  import opened CsvExport
  import opened CsvImport
  import opened SessionEditing

  /** A session whose export the import can accept: a non-empty, valid
      datetime and custom fields named `custom-...` (as every name made from a
      label is). Its other properties may be anything. */
  predicate ExportReady(s: Session, isValidDate: string -> bool) {
    && StaticValue(s, "datetime") != ""
    && isValidDate(StaticValue(s, "datetime"))
    && forall k :: 0 <= k < |s.customFields| ==> StartsWith(s.customFields[k].name, CustomPrefix)
  }

  /** The properties the table carries for a session: every static field, an
      absent one as `""`, and no other property. */
  function TableFields(s: Session): map<string, string> {
    map f | f in StaticFields :: StaticValue(s, f)
  }

  /** The custom fields one per column, in column order: the first field's
      value under each name, when it is not empty. */
  function ByColumns(fs: seq<CustomField>, names: seq<string>): (r: seq<CustomField>)
    ensures |r| <= |names|
    ensures forall k :: 0 <= k < |r| ==> r[k].name in names && r[k].value != ""
  {
    if names == [] then []
    else
      var n := |names| - 1;
      var v := FirstValue(fs, names[n]);
      ByColumns(fs, names[..n]) + if v != "" then [CustomField(names[n], v)] else []
  }

  /** What the import gives back for each exported session. */
  function Expected(sessions: seq<Session>): (r: seq<Session>)
    ensures |r| == |sessions|
  {
    var names := AllCustomNames(Cloned(sessions));
    seq(|sessions|, i requires 0 <= i < |sessions| =>
      var c := Cleaned(sessions[i]);
      c.(fields := TableFields(c), customFields := ByColumns(c.customFields, names)))
  }

  // ---------------------------------------------------------------------
  // One cell

  /** A static column overwrites its property with the cell. */
  lemma AbsorbStatic(s: Session, name: string, cell: string)
    requires name in StaticFields
    ensures Absorb(s, name, cell) == s.(fields := s.fields[name := cell])
  {
    StaticFieldsWellFormed();
    var j :| 0 <= j < |StaticFields| && StaticFields[j] == name;
  }

  /** A cell under a `steep-` column appends a steep when it is not empty. */
  lemma AbsorbSteep(s: Session, name: string, cell: string)
    requires StartsWith(name, SteepPrefix)
    ensures Absorb(s, name, cell) == if cell != "" then s.(steeps := s.steeps + [cell]) else s
  {
  }

  /** A cell under a `custom-` column appends a field when it is not empty. */
  lemma AbsorbCustom(s: Session, name: string, cell: string)
    requires StartsWith(name, CustomPrefix)
    ensures Absorb(s, name, cell)
         == if cell != "" then s.(customFields := s.customFields + [CustomField(name, cell)]) else s
  {
    FirstCharMismatch(name, SteepPrefix);
  }

  // ---------------------------------------------------------------------
  // The three segments of a row

  /** The properties after writing `cells` under `names`, left to right. */
  function Overlay(m: map<string, string>, names: seq<string>, cells: seq<string>): map<string, string>
    requires |names| == |cells|
  {
    if cells == [] then m
    else
      var n := |cells| - 1;
      Overlay(m, names[..n], cells[..n])[names[n] := cells[n]]
  }

  /** Static columns only write properties. */
  lemma {:induction false} StaticSegment(s0: Session, names: seq<string>, cells: seq<string>)
    requires |names| == |cells|
    requires forall j :: 0 <= j < |names| ==> names[j] in StaticFields
    ensures Rebuild(s0, names, cells) == s0.(fields := Overlay(s0.fields, names, cells))
  {
    if cells != [] {
      var n := |cells| - 1;
      StaticSegment(s0, names[..n], cells[..n]);
      AbsorbStatic(Rebuild(s0, names[..n], cells[..n]), names[n], cells[n]);
    }
  }

  /** Writing a session's static values under their names gives each name
      its value and adds exactly those names. */
  lemma {:induction false} OverlayFacts(m: map<string, string>, names: seq<string>, cells: seq<string>, c: Session)
    requires |names| == |cells|
    requires forall j :: 0 <= j < |cells| ==> cells[j] == StaticValue(c, names[j])
    ensures forall f :: f in Overlay(m, names, cells) <==> f in m || f in names
    ensures forall f :: f in names ==> Overlay(m, names, cells)[f] == StaticValue(c, f)
  {
    if cells != [] {
      var n := |cells| - 1;
      OverlayFacts(m, names[..n], cells[..n], c);
      assert names == names[..n] + [names[n]];
    }
  }

  /** Steep columns only append their non-empty cells, in order. */
  lemma {:induction false} SteepSegment(t: Session, cols: seq<string>, cells: seq<string>)
    requires |cols| == |cells|
    requires forall j :: 0 <= j < |cols| ==> StartsWith(cols[j], SteepPrefix)
    ensures Rebuild(t, cols, cells) == t.(steeps := t.steeps + Filter(cells, IsNonEmpty))
  {
    if cells != [] {
      var n := |cells| - 1;
      SteepSegment(t, cols[..n], cells[..n]);
      AbsorbSteep(Rebuild(t, cols[..n], cells[..n]), cols[n], cells[n]);
      assert cells == cells[..n] + [cells[n]];
      FilterAppend(cells[..n], [cells[n]], IsNonEmpty);
      assert [cells[n]][1..] == [];
    }
  }

  /** Custom columns append, column by column, the non-empty first value of
      each name. */
  lemma {:induction false} CustomSegment(u: Session, fs: seq<CustomField>, names: seq<string>, cells: seq<string>)
    requires |names| == |cells|
    requires forall j :: 0 <= j < |names| ==> StartsWith(names[j], CustomPrefix)
    requires forall j :: 0 <= j < |cells| ==> cells[j] == FirstValue(fs, names[j])
    ensures Rebuild(u, names, cells) == u.(customFields := u.customFields + ByColumns(fs, names))
  {
    if cells != [] {
      var n := |cells| - 1;
      CustomSegment(u, fs, names[..n], cells[..n]);
      AbsorbCustom(Rebuild(u, names[..n], cells[..n]), names[n], cells[n]);
      assert ByColumns(fs, names)
          == ByColumns(fs, names[..n]) + if cells[n] != "" then [CustomField(names[n], cells[n])] else [];
    }
  }

  // ---------------------------------------------------------------------
  // One row

  /** The static cells of any session rebuild exactly the static fields, an
      absent one as `""`; a property outside the static list is not carried. */
  lemma StaticPartRestored(c: Session)
    ensures Rebuild(FreshSession(), StaticFields, StaticCells(c)) == Session(TableFields(c), [], [])
  {
    StaticSegment(FreshSession(), StaticFields, StaticCells(c));
    StaticFieldsWellFormed();
    OverlayRestores(FreshSession().fields, StaticFields, StaticCells(c), c);
  }

  /** Writing every name's value over a map with no other name gives each
      name its value and nothing else. */
  lemma OverlayRestores(m: map<string, string>, names: seq<string>, cells: seq<string>, c: Session)
    requires |names| == |cells|
    requires forall j :: 0 <= j < |cells| ==> cells[j] == StaticValue(c, names[j])
    requires forall f :: f in m ==> f in names
    ensures Overlay(m, names, cells) == map f | f in names :: StaticValue(c, f)
  {
    OverlayFacts(m, names, cells, c);
  }

  /** For a session holding exactly the static properties, the table carries
      them all unchanged. */
  lemma TableFieldsOfExact(s: Session)
    requires forall f :: f in s.fields <==> f in StaticFields
    ensures TableFields(s) == s.fields
  {
  }

  /** The steep cells of a session with no empty steep give back its steeps. */
  lemma SteepsRestored(t: Session, steeps: seq<string>, m: nat)
    requires |steeps| <= m && forall j :: 0 <= j < |steeps| ==> steeps[j] != ""
    ensures Rebuild(t, SteepColumns(m), SteepCells(steeps, m)) == t.(steeps := t.steeps + steeps)
  {
    SteepColumnsPrefixed(m);
    SteepSegment(t, SteepColumns(m), SteepCells(steeps, m));
    var blanks := SteepCellsPadded(steeps, m);
    FilterAppend(steeps, blanks, IsNonEmpty);
    FilterAllKept(steeps, IsNonEmpty);
    FilterNoneKept(blanks, IsNonEmpty);
  }

  /** Every steep column starts with `steep-`. */
  lemma SteepColumnsPrefixed(m: nat)
    ensures forall j :: 0 <= j < m ==> StartsWith(SteepColumns(m)[j], SteepPrefix)
  {
    forall j | 0 <= j < m ensures StartsWith(SteepColumns(m)[j], SteepPrefix) {
      assert SteepColumns(m)[j][..|SteepPrefix|] == SteepPrefix;
    }
  }

  /** The steep cells of steeps with no empty one are those steeps, padded
      with empty cells. */
  lemma SteepCellsPadded(steeps: seq<string>, m: nat) returns (blanks: seq<string>)
    requires |steeps| <= m && forall j :: 0 <= j < |steeps| ==> steeps[j] != ""
    ensures SteepCells(steeps, m) == steeps + blanks
    ensures forall j :: 0 <= j < |blanks| ==> blanks[j] == ""
  {
    blanks := seq(m - |steeps|, _ => "");
    assert SteepCells(steeps, m) == steeps + blanks;
  }

  lemma CustomsRestored(u: Session, fs: seq<CustomField>, names: seq<string>)
    requires forall j :: 0 <= j < |names| ==> StartsWith(names[j], CustomPrefix)
    ensures Rebuild(u, names, CustomCells(fs, names)) == u.(customFields := u.customFields + ByColumns(fs, names))
  {
    CustomSegment(u, fs, names, CustomCells(fs, names));
  }

  /** A row is rebuilt segment by segment. */
  lemma RowSegments(c: Session, m: nat, names: seq<string>)
    ensures var header, row := StaticFields + SteepColumns(m) + names, SessionRow(c, m, names);
      && |row| == |header|
      && Rebuild(FreshSession(), header, row)
         == Rebuild(Rebuild(Rebuild(FreshSession(), StaticFields, StaticCells(c)),
                            SteepColumns(m), SteepCells(c.steeps, m)),
                    names, CustomCells(c.customFields, names))
  {
    var a, b, d := StaticCells(c), SteepCells(c.steeps, m), CustomCells(c.customFields, names);
    RebuildAppend(FreshSession(), StaticFields + SteepColumns(m), a + b, names, d);
    RebuildAppend(FreshSession(), StaticFields, a, SteepColumns(m), b);
  }

  lemma SteepsAfterFields(f: map<string, string>, steeps: seq<string>, m: nat)
    requires |steeps| <= m && forall j :: 0 <= j < |steeps| ==> steeps[j] != ""
    ensures Rebuild(Session(f, [], []), SteepColumns(m), SteepCells(steeps, m)) == Session(f, steeps, [])
  {
    SteepsRestored(Session(f, [], []), steeps, m);
    assert [] + steeps == steeps;
  }

  lemma CustomsAfterSteeps(f: map<string, string>, steeps: seq<string>, fs: seq<CustomField>, names: seq<string>)
    requires forall j :: 0 <= j < |names| ==> StartsWith(names[j], CustomPrefix)
    ensures Rebuild(Session(f, steeps, []), names, CustomCells(fs, names)) == Session(f, steeps, ByColumns(fs, names))
  {
    CustomsRestored(Session(f, steeps, []), fs, names);
    assert [] + ByColumns(fs, names) == ByColumns(fs, names);
  }

  /** The steep and custom segments of a row, continued from the session's
      properties, rebuild the session with its custom fields by column. */
  lemma TailRebuilt(f: map<string, string>, c: Session, m: nat, names: seq<string>)
    requires |c.steeps| <= m && forall j :: 0 <= j < |c.steeps| ==> c.steeps[j] != ""
    requires forall j :: 0 <= j < |names| ==> StartsWith(names[j], CustomPrefix)
    ensures Rebuild(Rebuild(Session(f, [], []), SteepColumns(m), SteepCells(c.steeps, m)),
                    names, CustomCells(c.customFields, names))
         == Session(f, c.steeps, ByColumns(c.customFields, names))
  {
    SteepsAfterFields(f, c.steeps, m);
    CustomsAfterSteeps(f, c.steeps, c.customFields, names);
  }

  /** A back-fill under a header holding every static field adds nothing. */
  lemma BackFillNothingMissing(s: Session, header: seq<string>)
    requires forall j :: 0 <= j < |StaticFields| ==> StaticFields[j] in header
    ensures BackFill(s, header) == s
  {
    assert MissingFields(StaticFields, header) == map[];
  }

  /** A full-width row under a header with every static field needs no
      back-fill. */
  lemma BuildRowFullWidth(m: nat, names: seq<string>, row: seq<string>)
    requires |row| == |StaticFields| + m + |names|
    ensures BuildRow(StaticFields + SteepColumns(m) + names, row)
         == Rebuild(FreshSession(), StaticFields + SteepColumns(m) + names, row)
  {
    var header := StaticFields + SteepColumns(m) + names;
    assert header[..|row|] == header;
    forall j | 0 <= j < |StaticFields| ensures StaticFields[j] in header {
      assert header[j] == StaticFields[j];
    }
    BackFillNothingMissing(Rebuild(FreshSession(), header, row), header);
  }

  /** The row a session exports to is rebuilt into its static fields, its
      steeps and its custom fields by column. */
  lemma RowRoundTrip(c: Session, m: nat, names: seq<string>)
    requires |c.steeps| <= m && forall j :: 0 <= j < |c.steeps| ==> c.steeps[j] != ""
    requires forall j :: 0 <= j < |names| ==> StartsWith(names[j], CustomPrefix)
    ensures BuildRow(StaticFields + SteepColumns(m) + names, SessionRow(c, m, names))
         == Session(TableFields(c), c.steeps, ByColumns(c.customFields, names))
  {
    RowRebuilt(c, m, names);
    BuildRowFullWidth(m, names, SessionRow(c, m, names));
  }

  /** The cells of an exported row, absorbed under the export's header. */
  lemma RowRebuilt(c: Session, m: nat, names: seq<string>)
    requires |c.steeps| <= m && forall j :: 0 <= j < |c.steeps| ==> c.steeps[j] != ""
    requires forall j :: 0 <= j < |names| ==> StartsWith(names[j], CustomPrefix)
    ensures Rebuild(FreshSession(), StaticFields + SteepColumns(m) + names, SessionRow(c, m, names))
         == Session(TableFields(c), c.steeps, ByColumns(c.customFields, names))
  {
    var tf := TableFields(c);
    RowSegments(c, m, names);
    StaticPartRestored(c);
    TailRebuilt(tf, c, m, names);
  }


  // ---------------------------------------------------------------------
  // The whole table

  /** Every custom column of the export of ready sessions is a `custom-` name. */
  lemma CustomColumnsPrefixed(sessions: seq<Session>, isValidDate: string -> bool)
    requires forall i :: 0 <= i < |sessions| ==> ExportReady(sessions[i], isValidDate)
    ensures forall j :: 0 <= j < |AllCustomNames(Cloned(sessions))| ==>
      StartsWith(AllCustomNames(Cloned(sessions))[j], CustomPrefix)
  {
    forall j | 0 <= j < |AllCustomNames(Cloned(sessions))|
      ensures StartsWith(AllCustomNames(Cloned(sessions))[j], CustomPrefix)
    {
      CustomColumnPrefixed(sessions, isValidDate, AllCustomNames(Cloned(sessions))[j]);
    }
  }

  lemma CustomColumnPrefixed(sessions: seq<Session>, isValidDate: string -> bool, n: string)
    requires forall i :: 0 <= i < |sessions| ==> ExportReady(sessions[i], isValidDate)
    requires n in AllCustomNames(Cloned(sessions))
    ensures StartsWith(n, CustomPrefix)
  {
    CustomColumnHasField(sessions, n);
    var i, k :| 0 <= i < |sessions| && 0 <= k < |sessions[i].customFields| && NamedValueAt(sessions, n, i, k);
    assert ExportReady(sessions[i], isValidDate);
    assert sessions[i].customFields[k].name == n;
  }

  /** Each data row of the export of ready sessions fits under the header and
      rebuilds into the session's expected form, whose datetime is valid. */
  lemma ExportedRowsRebuilt(sessions: seq<Session>, isValidDate: string -> bool)
    requires forall i :: 0 <= i < |sessions| ==> ExportReady(sessions[i], isValidDate)
    ensures var t := ExportToCsv(sessions);
      && "datetime" in t[0] && "teaName" in t[0]
      && RowsFit(t[0], t[1..])
      && forall i :: 0 <= i < |sessions| ==>
           BuildRow(t[0], t[1..][i]) == Expected(sessions)[i] && HasValidDatetime(Expected(sessions)[i], isValidDate)
  {
    var t := ExportToCsv(sessions);
    var cloned := Cloned(sessions);
    var m, names := MaxSteeps(cloned), AllCustomNames(cloned);
    ExportHeaderLayout(sessions);
    assert t[0] == StaticFields + SteepColumns(m) + names;
    StaticFieldsWellFormed();
    CustomColumnsPrefixed(sessions, isValidDate);
    forall i | 0 <= i < |sessions|
      ensures BuildRow(t[0], t[1..][i]) == Expected(sessions)[i]
    {
      ExportRow(sessions, i);
      RowRoundTrip(Cleaned(sessions[i]), m, names);
    }
    forall i | 0 <= i < |sessions| ensures HasValidDatetime(Expected(sessions)[i], isValidDate) {
      assert Expected(sessions)[i].fields["datetime"] == StaticValue(sessions[i], "datetime");
    }
  }

  /** Importing the exported table of ready sessions succeeds completely and
      gives back each session with its empty entries dropped and its custom
      fields laid out by column. */
  lemma CsvRoundTrip(sessions: seq<Session>, text: string, isValidDate: string -> bool)
    requires |sessions| > 0
    requires forall i :: 0 <= i < |sessions| ==> ExportReady(sessions[i], isValidDate)
    requires !IsBlank(text)
    ensures ImportSpec(text, ParseResult([], ExportToCsv(sessions)), isValidDate) == Imported(Expected(sessions))
  {
    var t := ExportToCsv(sessions);
    ExportedRowsRebuilt(sessions, isValidDate);
    ImportAllValid(text, ParseResult([], t), isValidDate, Expected(sessions));
  }

  // ---------------------------------------------------------------------
  // Custom fields come back as the same fields, in column order

  /** No two custom fields of a session share a name. */
  predicate DistinctNames(fs: seq<CustomField>) {
    forall i, j :: 0 <= i < j < |fs| ==> fs[i].name != fs[j].name
  }

  predicate Distinct<T(==)>(xs: seq<T>) {
    forall i, j :: 0 <= i < j < |xs| ==> xs[i] != xs[j]
  }

  /** Under distinct names, the first value of a field's name is its own. */
  lemma FirstValueOfMember(fs: seq<CustomField>, k: nat)
    requires DistinctNames(fs) && k < |fs|
    ensures FirstValue(fs, fs[k].name) == fs[k].value
  {
    assert Names(fs)[k] == fs[k].name;
    var j := IndexOf(Names(fs), fs[k].name);
    assert fs[j].name == fs[k].name;
  }

  /** Under distinct names, the fields given back are exactly the session's
      fields with a value whose name has a column. */
  lemma {:induction false} ByColumnsMembers(fs: seq<CustomField>, names: seq<string>)
    requires DistinctNames(fs)
    ensures forall x :: x in ByColumns(fs, names) <==> x in fs && x.name in names && x.value != ""
  {
    if names != [] {
      var n := |names| - 1;
      var init := names[..n];
      ByColumnsMembers(fs, init);
      assert names == init + [names[n]];
      forall x ensures x in ByColumns(fs, names) <==> x in fs && x.name in names && x.value != "" {
        var v := FirstValue(fs, names[n]);
        if v != "" {
          var j := IndexOf(Names(fs), names[n]);
          assert fs[j] == CustomField(names[n], v);
        }
        if x in fs && x.name == names[n] && x.value != "" {
          var k :| 0 <= k < |fs| && fs[k] == x;
          FirstValueOfMember(fs, k);
        }
      }
    }
  }

  /** The fields given back follow the column order. */
  lemma {:induction false} ByColumnsOrdered(fs: seq<CustomField>, names: seq<string>)
    requires Distinct(names)
    ensures forall a, b :: 0 <= a < b < |ByColumns(fs, names)| ==>
      IndexOf(names, ByColumns(fs, names)[a].name) < IndexOf(names, ByColumns(fs, names)[b].name)
  {
    if names != [] {
      var n := |names| - 1;
      var init, last := names[..n], names[n];
      ByColumnsOrdered(fs, init);
      var r0 := ByColumns(fs, init);
      assert forall a, b :: 0 <= a < b < |r0| ==> IndexOf(init, r0[a].name) < IndexOf(init, r0[b].name);
      var v := FirstValue(fs, last);
      OrderedSnoc(names, init, last, r0, if v != "" then [CustomField(last, v)] else []);
    }
  }

  /** Appending a field named after a new last column keeps the column order. */
  lemma OrderedSnoc(names: seq<string>, init: seq<string>, last: string, r0: seq<CustomField>, t: seq<CustomField>)
    requires names == init + [last] && last !in init
    requires forall a :: 0 <= a < |r0| ==> r0[a].name in init
    requires forall a, b :: 0 <= a < b < |r0| ==> IndexOf(init, r0[a].name) < IndexOf(init, r0[b].name)
    requires |t| <= 1 && forall a :: 0 <= a < |t| ==> t[a].name == last
    ensures var r := r0 + t;
      forall a, b :: 0 <= a < b < |r| ==> IndexOf(names, r[a].name) < IndexOf(names, r[b].name)
  {
    var r := r0 + t;
    forall y | y in init ensures IndexOf(names, y) == IndexOf(init, y) {
      IndexOfExtend(init, last, y);
    }
    assert IndexOf(names, last) == |init|;
    forall a, b | 0 <= a < b < |r| ensures IndexOf(names, r[a].name) < IndexOf(names, r[b].name) {
      assert r[a] == r0[a];
      if b < |r0| {
        assert r[b] == r0[b];
      } else {
        assert r[b].name == last;
      }
    }
  }

  /** A sequence without repetitions holds each of its elements once. */
  lemma {:induction false} DistinctCount<T>(xs: seq<T>)
    requires Distinct(xs)
    ensures forall x :: multiset(xs)[x] == if x in xs then 1 else 0
  {
    if xs != [] {
      DistinctCount(xs[1..]);
      assert xs == [xs[0]] + xs[1..];
    }
  }

  /** Two sequences without repetitions and with the same elements are
      permutations of each other. */
  lemma SameElements<T>(a: seq<T>, b: seq<T>)
    requires Distinct(a) && Distinct(b)
    requires forall x :: x in a <==> x in b
    ensures multiset(a) == multiset(b)
  {
    DistinctCount(a);
    DistinctCount(b);
    assert forall x :: multiset(a)[x] == multiset(b)[x];
  }

  /** When every field of a session has a value and a column and no two share
      a name, the fields given back are the session's own, reordered. */
  lemma ByColumnsPermutes(fs: seq<CustomField>, names: seq<string>)
    requires DistinctNames(fs) && Distinct(names)
    requires forall k :: 0 <= k < |fs| ==> fs[k].value != "" && fs[k].name in names
    ensures multiset(ByColumns(fs, names)) == multiset(fs)
  {
    var r := ByColumns(fs, names);
    ByColumnsOrdered(fs, names);
    OrderedDistinct(r, names);
    ByColumnsMembers(fs, names);
    AllKept(fs, names);
    SameElements(r, fs);
  }

  lemma AllKept(fs: seq<CustomField>, names: seq<string>)
    requires forall k :: 0 <= k < |fs| ==> fs[k].value != "" && fs[k].name in names
    ensures forall x :: x in fs ==> x.name in names && x.value != ""
  {
  }

  /** Fields in strictly increasing column order are all different. */
  lemma OrderedDistinct(r: seq<CustomField>, names: seq<string>)
    requires forall a :: 0 <= a < |r| ==> r[a].name in names
    requires forall a, b :: 0 <= a < b < |r| ==> IndexOf(names, r[a].name) < IndexOf(names, r[b].name)
    ensures Distinct(r)
  {
  }

  /** Every custom field of a cleaned session has a custom column. */
  lemma CleanedFieldHasColumn(sessions: seq<Session>, i: nat, k: nat)
    requires i < |sessions| && k < |Cleaned(sessions[i]).customFields|
    ensures Cleaned(sessions[i]).customFields[k].name in AllCustomNames(Cloned(sessions))
  {
    var x := Cleaned(sessions[i]).customFields[k];
    assert x in sessions[i].customFields;
    var k' :| 0 <= k' < |sessions[i].customFields| && sessions[i].customFields[k'] == x;
    assert NamedValueAt(sessions, x.name, i, k');
    FieldHasCustomColumn(sessions, x.name);
  }

  /** With custom names distinct within the session, what the import gives
      back for session `i` is its properties, its non-empty steeps, and its
      valued custom fields as the same fields, ordered by custom column. */
  lemma ExpectedRestoresSession(sessions: seq<Session>, i: nat)
    requires i < |sessions|
    requires DistinctNames(Cleaned(sessions[i]).customFields)
    ensures var e, names := Expected(sessions)[i], AllCustomNames(Cloned(sessions));
      && e.steeps == Filter(sessions[i].steeps, IsNonEmpty)
      && multiset(e.customFields) == multiset(Filter(sessions[i].customFields, HasValue))
      && forall a, b :: 0 <= a < b < |e.customFields| ==>
           IndexOf(names, e.customFields[a].name) < IndexOf(names, e.customFields[b].name)
  {
    var names := AllCustomNames(Cloned(sessions));
    ExportCustomColumns(sessions);
    var fs := Cleaned(sessions[i]).customFields;
    forall k | 0 <= k < |fs| ensures fs[k].name in names {
      CleanedFieldHasColumn(sessions, i, k);
    }
    ByColumnsPermutes(fs, names);
    ByColumnsOrdered(fs, names);
  }

  /** The properties the import gives back for session `i`: every static
      field, with the session's value or `""` when it had none, and no other
      property; a session holding exactly the static fields gets its own
      properties back. */
  lemma ExpectedFields(sessions: seq<Session>, i: nat)
    requires i < |sessions|
    ensures var e := Expected(sessions)[i];
      && (forall f :: f in e.fields <==> f in StaticFields)
      && (forall f :: f in StaticFields ==> e.fields[f] == StaticValue(sessions[i], f))
      && ((forall f :: f in sessions[i].fields <==> f in StaticFields) ==> e.fields == sessions[i].fields)
  {
    assert Expected(sessions)[i].fields == TableFields(Cleaned(sessions[i]));
    if forall f :: f in sessions[i].fields <==> f in StaticFields {
      TableFieldsOfExact(Cleaned(sessions[i]));
    }
  }

  /** A session saved from the form keeps the brand the form names, but the
      table has no brand column: the import gives it back without the brand,
      and with `""` for the producer the form never sets. */
  lemma SavedBrandNotCarried(entries: seq<FormEntry>, brand: string)
    requires FormGet(entries, "teaBrand") == Some(Text(brand))
    ensures var saved := FormSession(entries);
      && "teaBrand" in saved.fields && saved.fields["teaBrand"] == brand
      && "teaProducer" !in saved.fields
      && "teaBrand" !in Expected([saved])[0].fields
      && "teaProducer" in Expected([saved])[0].fields && Expected([saved])[0].fields["teaProducer"] == ""
  {
    var saved := FormSession(entries);
    FormKeepsBrand(entries, brand);
    BrandIsNotStatic();
    ExpectedFields([saved], 0);
  }

  /** The brand is not a column of the table; the producer is. */
  lemma BrandIsNotStatic()
    ensures "teaBrand" !in StaticFields && "teaProducer" in StaticFields
  {
    assert StaticFields[3] == "teaProducer";
  }
}
