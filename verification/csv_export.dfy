/**
 * The tabular export: the session list as the table of string cells that is
 * handed to the CSV writer (quoting of cells is the writer's business and is
 * not part of this model).
 *
 * Header: the static field names, then `steep-1` .. `steep-N` for the largest
 * number of non-empty steeps, then the distinct custom-field names in
 * first-seen order. One row of the same width per session.
 */
module CsvExport {
  import opened JsBuiltins
  import opened SessionModel
  import JsonExport

  type Row = seq<string>
  type Table = seq<Row>

  /** The sessions with empty steeps and empty-valued custom fields dropped:
      the same clone the document export makes. */
  function Cloned(sessions: seq<Session>): seq<Session> {
    JsonExport.ExportToJson(sessions)
  }

  /** `cloned.reduce((max, s) => Math.max(max, s.steeps.length), 0)` */
  function MaxSteeps(cloned: seq<Session>): (m: nat)
    ensures forall i :: 0 <= i < |cloned| ==> |cloned[i].steeps| <= m
    ensures m == 0 || exists i :: 0 <= i < |cloned| && |cloned[i].steeps| == m
  {
    if cloned == [] then 0
    else
      var m := MaxSteeps(cloned[..|cloned| - 1]);
      var n := |cloned[|cloned| - 1].steeps|;
      if m < n then n else m
  }

  function Names(fs: seq<CustomField>): (r: seq<string>)
    ensures |r| == |fs| && forall k :: 0 <= k < |fs| ==> r[k] == fs[k].name
  {
    seq(|fs|, k requires 0 <= k < |fs| => fs[k].name)
  }

  /** `cloned.flatMap((s) => s.customFields.map((f) => f.name))` */
  function CustomNames(cloned: seq<Session>): seq<string> {
    if cloned == [] then []
    else CustomNames(cloned[..|cloned| - 1]) + Names(cloned[|cloned| - 1].customFields)
  }

  /** `allCustomFields`: each custom-field name once, in first-seen order. */
  function AllCustomNames(cloned: seq<Session>): seq<string> {
    Unique(CustomNames(cloned))
  }

  /** `steep-${k + 1}` */
  function SteepColumn(k: nat): string {
    SteepPrefix + NatToString(k + 1)
  }

  function SteepColumns(count: nat): (r: Row)
    ensures |r| == count && forall k :: 0 <= k < count ==> r[k] == SteepColumn(k)
  {
    seq(count, k requires 0 <= k < count => SteepColumn(k))
  }

  /** The header row; the custom part is deduplicated a second time, as the
      source does, which changes nothing. */
  function HeaderRow(cloned: seq<Session>): (h: Row)
    ensures |h| == |StaticFields| + MaxSteeps(cloned) + |AllCustomNames(cloned)|
  {
    UniqueIdempotent(CustomNames(cloned));
    StaticFields + SteepColumns(MaxSteeps(cloned)) + Unique(AllCustomNames(cloned))
  }

  /** The value of the first custom field called `name`, or `""`. */
  function FirstValue(fs: seq<CustomField>, name: string): (v: string)
    ensures name in Names(fs) ==> v == fs[IndexOf(Names(fs), name)].value
    ensures name !in Names(fs) ==> v == ""
  {
    if fs == [] then ""
    else if fs[0].name == name then fs[0].value
    else
      assert Names(fs)[1..] == Names(fs[1..]);
      FirstValue(fs[1..], name)
  }

  /** `staticFields.map((field) => session[field])` */
  function StaticCells(s: Session): Row {
    seq(|StaticFields|, j requires 0 <= j < |StaticFields| => StaticValue(s, StaticFields[j]))
  }

  /** `session.steeps[k] || ''` for each steep column. */
  function SteepCells(steeps: seq<string>, maxSteeps: nat): Row {
    seq(maxSteeps, k requires 0 <= k < maxSteeps => if k < |steeps| && steeps[k] != "" then steeps[k] else "")
  }

  /** The value of the first field with each custom column's name, or `""`. */
  function CustomCells(fs: seq<CustomField>, names: seq<string>): Row {
    seq(|names|, c requires 0 <= c < |names| => FirstValue(fs, names[c]))
  }

  /** One data row. */
  function SessionRow(s: Session, maxSteeps: nat, names: seq<string>): (row: Row)
    ensures |row| == |StaticFields| + maxSteeps + |names|
  {
    StaticCells(s) + SteepCells(s.steeps, maxSteeps) + CustomCells(s.customFields, names)
  }

  /** The data rows, one per cloned session. */
  function DataRows(cloned: seq<Session>, maxSteeps: nat, names: seq<string>): (rows: Table)
    ensures |rows| == |cloned|
    ensures forall i :: 0 <= i < |rows| ==> |rows[i]| == |StaticFields| + maxSteeps + |names|
  {
    seq(|cloned|, i requires 0 <= i < |cloned| => SessionRow(cloned[i], maxSteeps, names))
  }

  /** The header followed by one row per session, all of the header's width. */
  function ExportToCsv(sessions: seq<Session>): (t: Table)
    ensures |t| == |sessions| + 1
    ensures forall i :: 0 <= i < |t| ==> |t[i]| == |t[0]|
  {
    var cloned := Cloned(sessions);
    var rows := DataRows(cloned, MaxSteeps(cloned), AllCustomNames(cloned));
    var t := [HeaderRow(cloned)] + rows;
    assert forall i :: 1 <= i < |t| ==> t[i] == rows[i - 1];
    t
  }

  /** The header is the static fields, then `steep-1` .. `steep-maxSteeps`,
      then the distinct custom names, and nothing else. */
  lemma ExportHeaderLayout(sessions: seq<Session>)
    ensures var h, m, names := ExportToCsv(sessions)[0], MaxSteeps(Cloned(sessions)), AllCustomNames(Cloned(sessions));
      && |h| == |StaticFields| + m + |names|
      && h[..|StaticFields|] == StaticFields
      && (forall k :: 0 <= k < m ==> h[|StaticFields| + k] == SteepColumn(k))
      && h[|StaticFields| + m..] == names
  {
    UniqueIdempotent(CustomNames(Cloned(sessions)));
  }

  /** `maxSteeps` is the largest number of non-empty steeps of any session. */
  lemma ExportSteepColumnCount(sessions: seq<Session>)
    ensures var m := MaxSteeps(Cloned(sessions));
      && (forall i :: 0 <= i < |sessions| ==> |Filter(sessions[i].steeps, IsNonEmpty)| <= m)
      && (m == 0 || exists i :: 0 <= i < |sessions| && |Filter(sessions[i].steeps, IsNonEmpty)| == m)
  {
    forall i | 0 <= i < |sessions| ensures Cloned(sessions)[i].steeps == Filter(sessions[i].steeps, IsNonEmpty) {
      assert Cloned(sessions)[i] == Cleaned(sessions[i]);
    }
  }

  /** Custom field `k` of cloned session `i` is called `n`. */
  predicate FieldNamedAt(cloned: seq<Session>, n: string, i: int, k: int) {
    0 <= i < |cloned| && 0 <= k < |cloned[i].customFields| && cloned[i].customFields[k].name == n
  }

  /** A name is in `CustomNames` exactly when some cloned session has a field of that name. */
  lemma CustomNamesMembers(cloned: seq<Session>, n: string)
    ensures n in CustomNames(cloned) <==> exists i, k :: FieldNamedAt(cloned, n, i, k)
  {
    if n in CustomNames(cloned) {
      var i, k := NameHasField(cloned, n);
    }
    if exists i, k :: FieldNamedAt(cloned, n, i, k) {
      var i, k :| FieldNamedAt(cloned, n, i, k);
      FieldHasName(cloned, n, i, k);
    }
  }

  /** Each flattened name comes from some session's field. */
  lemma {:induction false} NameHasField(cloned: seq<Session>, n: string) returns (i: nat, k: nat)
    requires n in CustomNames(cloned)
    ensures FieldNamedAt(cloned, n, i, k)
  {
    var init, last := cloned[..|cloned| - 1], cloned[|cloned| - 1];
    assert CustomNames(cloned) == CustomNames(init) + Names(last.customFields);
    if n in CustomNames(init) {
      i, k := NameHasField(init, n);
      assert init[i] == cloned[i];
    } else {
      k :| 0 <= k < |last.customFields| && Names(last.customFields)[k] == n;
      i := |cloned| - 1;
    }
  }

  /** Each session's field names are among the flattened names. */
  lemma {:induction false} FieldHasName(cloned: seq<Session>, n: string, i: int, k: int)
    requires FieldNamedAt(cloned, n, i, k)
    ensures n in CustomNames(cloned)
  {
    var init, last := cloned[..|cloned| - 1], cloned[|cloned| - 1];
    assert CustomNames(cloned) == CustomNames(init) + Names(last.customFields);
    if i < |init| {
      assert init[i] == cloned[i];
      FieldHasName(init, n, i, k);
    } else {
      assert Names(last.customFields)[k] == n;
    }
  }

  /** Custom field `k` of session `i` is called `n` and has a value. */
  predicate NamedValueAt(sessions: seq<Session>, n: string, i: int, k: int) {
    0 <= i < |sessions| && 0 <= k < |sessions[i].customFields|
    && sessions[i].customFields[k].name == n && sessions[i].customFields[k].value != ""
  }

  /** Some session has a custom field called `n` with a value. */
  predicate HasNamedValue(sessions: seq<Session>, n: string) {
    exists i, k :: 0 <= i < |sessions| && 0 <= k < |sessions[i].customFields| && NamedValueAt(sessions, n, i, k)
  }

  /** The custom columns are distinct, in first-seen order, and are exactly the
      names of custom fields with a non-empty value: an empty-valued field never
      makes a column. */
  lemma ExportCustomColumns(sessions: seq<Session>)
    ensures var names := AllCustomNames(Cloned(sessions));
      && (forall a, b :: 0 <= a < b < |names| ==> names[a] != names[b])
      && (forall a, b :: 0 <= a < b < |names| ==>
            IndexOf(CustomNames(Cloned(sessions)), names[a]) < IndexOf(CustomNames(Cloned(sessions)), names[b]))
      && (forall n :: n in names <==> HasNamedValue(sessions, n))
  {
    UniqueFirstSeenOrder(CustomNames(Cloned(sessions)));
    forall n ensures n in AllCustomNames(Cloned(sessions)) <==> HasNamedValue(sessions, n) {
      if n in AllCustomNames(Cloned(sessions)) {
        CustomColumnHasField(sessions, n);
      }
      if HasNamedValue(sessions, n) {
        FieldHasCustomColumn(sessions, n);
      }
    }
  }

  lemma CustomColumnHasField(sessions: seq<Session>, n: string)
    requires n in AllCustomNames(Cloned(sessions))
    ensures HasNamedValue(sessions, n)
  {
    var cloned := Cloned(sessions);
    CustomNamesMembers(cloned, n);
    var i, k :| FieldNamedAt(cloned, n, i, k);
    var f := cloned[i].customFields[k];
    assert f in sessions[i].customFields;
    var k' :| 0 <= k' < |sessions[i].customFields| && sessions[i].customFields[k'] == f;
    assert NamedValueAt(sessions, n, i, k');
  }

  lemma FieldHasCustomColumn(sessions: seq<Session>, n: string)
    requires HasNamedValue(sessions, n)
    ensures n in AllCustomNames(Cloned(sessions))
  {
    var cloned := Cloned(sessions);
    var i, k :| 0 <= i < |sessions| && 0 <= k < |sessions[i].customFields| && NamedValueAt(sessions, n, i, k);
    var f := sessions[i].customFields[k];
    FilterCounts(sessions[i].customFields, HasValue);
    assert f in multiset(sessions[i].customFields);
    assert f in cloned[i].customFields;
    var k' :| 0 <= k' < |cloned[i].customFields| && cloned[i].customFields[k'] == f;
    FieldHasName(cloned, n, i, k');
  }

  /** Row `i + 1` of the table is the row of the cleaned session `i`, laid out
      under the same steep count and custom names as the header. */
  lemma ExportRow(sessions: seq<Session>, i: nat)
    requires i < |sessions|
    ensures ExportToCsv(sessions)[i + 1]
         == SessionRow(Cleaned(sessions[i]), MaxSteeps(Cloned(sessions)), AllCustomNames(Cloned(sessions)))
  {
    assert Cloned(sessions)[i] == Cleaned(sessions[i]);
  }

  /** Every cell of a session's row: the static value by name, steep `k` or
      `""` past the end, and the value of the first custom field with the
      column's name or `""`. */
  lemma SessionRowCells(s: Session, m: nat, names: seq<string>)
    ensures var row := SessionRow(s, m, names);
      && |row| == |StaticFields| + m + |names|
      && (forall j :: 0 <= j < |StaticFields| ==> row[j] == StaticValue(s, StaticFields[j]))
      && (forall k :: 0 <= k < m ==> row[|StaticFields| + k] == if k < |s.steeps| then s.steeps[k] else "")
      && (forall c :: 0 <= c < |names| ==> row[|StaticFields| + m + c] == FirstValue(s.customFields, names[c]))
  {
    var a, b, c := StaticCells(s), SteepCells(s.steeps, m), CustomCells(s.customFields, names);
    var row := SessionRow(s, m, names);
    assert row == a + b + c;
    var n := |StaticFields|;
    assert |a| == n && |b| == m && |c| == |names|;
    forall j | 0 <= j < n ensures row[j] == StaticValue(s, StaticFields[j]) {
      assert row[j] == a[j];
    }
    forall k | 0 <= k < m ensures row[n + k] == if k < |s.steeps| then s.steeps[k] else "" {
      assert row[n + k] == b[k];
    }
    forall k | 0 <= k < |names| ensures row[n + m + k] == FirstValue(s.customFields, names[k]) {
      assert row[n + m + k] == c[k];
    }
  }

  /** An empty list exports a header of the static fields only, and no rows. */
  lemma ExportEmpty()
    ensures ExportToCsv([]) == [StaticFields]
  {
    assert MaxSteeps(Cloned([])) == 0;
    assert Unique(AllCustomNames(Cloned([]))) == [];
    assert SteepColumns(0) == [];
    assert StaticFields + [] + [] == StaticFields;
  }
}
