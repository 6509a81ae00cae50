/**
 * The session list and its edit mode: saving the form as a new or replaced
 * session, resetting the form, deleting a session by position, starting to
 * edit one, and the labels a stored custom-field name is shown under.
 *
 * The form is the list of its entries in document order; a file entry is a
 * `Blob`. Form filling and rendering are not modelled, only the values they
 * are computed from.
 */
module SessionEditing {
  import opened JsBuiltins
  import opened SessionModel

  datatype FormValue = Text(text: string) | Blob

  datatype FormEntry = FormEntry(key: string, value: FormValue)

  /** The properties `saveSession` reads from the form, in its order. */
  const SavedFieldNames: seq<string> := [
    "datetime", "brewingVessel", "teaName", "teaBrand",
    "purchaseLocation", "dryLeaf", "wetLeaf", "additionalNotes"
  ]

  /** `formData.get(name)`: the value of the first entry with that key. */
  function FormGet(entries: seq<FormEntry>, name: string): (r: Option<FormValue>)
    ensures r.None? <==> forall i :: 0 <= i < |entries| ==> entries[i].key != name
    ensures r.Some? ==> exists i :: 0 <= i < |entries| && entries[i] == FormEntry(name, r.value)
                                    && forall j :: 0 <= j < i ==> entries[j].key != name
  {
    if entries == [] then None
    else if entries[0].key == name then Some(entries[0].value)
    else
      var r := FormGet(entries[1..], name);
      FormGetShift(entries, name, r);
      r
  }

  lemma FormGetShift(entries: seq<FormEntry>, name: string, r: Option<FormValue>)
    requires |entries| > 0 && entries[0].key != name
    requires r.Some? ==> exists i :: 0 <= i < |entries[1..]| && entries[1..][i] == FormEntry(name, r.value)
                                     && forall j :: 0 <= j < i ==> entries[1..][j].key != name
    ensures r.Some? ==> exists i :: 0 <= i < |entries| && entries[i] == FormEntry(name, r.value)
                                    && forall j :: 0 <= j < i ==> entries[j].key != name
  {
    if r.Some? {
      var i :| 0 <= i < |entries[1..]| && entries[1..][i] == FormEntry(name, r.value)
               && forall j :: 0 <= j < i ==> entries[1..][j].key != name;
      assert entries[i + 1] == FormEntry(name, r.value);
      assert forall j :: 0 <= j < i + 1 ==> entries[j].key != name by {
        forall j | 0 <= j < i + 1 ensures entries[j].key != name {
          if j > 0 { assert entries[j] == entries[1..][j - 1]; }
        }
      }
    }
  }

  /** The properties of the saved session: each read name whose entry holds
      text. A missing entry (`null`) or a file leaves the property unset. */
  function FormFields(entries: seq<FormEntry>): (m: map<string, string>)
    ensures forall f :: f in m <==> f in SavedFieldNames && FormGet(entries, f).Some? && FormGet(entries, f).value.Text?
    ensures forall f :: f in m ==> FormGet(entries, f) == Some(Text(m[f]))
  {
    map f | f in SavedFieldNames && FormGet(entries, f).Some? && FormGet(entries, f).value.Text? :: FormGet(entries, f).value.text
  }

  /** The text of every `steep-` entry, in entry order, empty ones included. */
  function SteepEntries(entries: seq<FormEntry>): (r: seq<string>)
    ensures |r| <= |entries|
  {
    if entries == [] then []
    else
      var e := entries[|entries| - 1];
      SteepEntries(entries[..|entries| - 1])
        + if e.value.Text? && StartsWith(e.key, SteepPrefix) then [e.value.text] else []
  }

  /** A custom field for every other `custom-` entry, named after its key, in
      entry order. */
  function CustomEntries(entries: seq<FormEntry>): (r: seq<CustomField>)
    ensures |r| <= |entries|
    ensures forall k :: 0 <= k < |r| ==>
      StartsWith(r[k].name, CustomPrefix) && FormEntry(r[k].name, Text(r[k].value)) in entries
  {
    if entries == [] then []
    else
      var e := entries[|entries| - 1];
      var init := entries[..|entries| - 1];
      var r := CustomEntries(init);
      assert forall k :: 0 <= k < |r| ==> FormEntry(r[k].name, Text(r[k].value)) in entries by {
        assert forall x :: x in init ==> x in entries;
      }
      r + if e.value.Text? && !StartsWith(e.key, SteepPrefix) && StartsWith(e.key, CustomPrefix)
          then [CustomField(e.key, e.value.text)] else []
  }

  /** The session the form describes. */
  function FormSession(entries: seq<FormEntry>): Session {
    Session(FormFields(entries), SteepEntries(entries), CustomEntries(entries))
  }

  /** A read name with a text entry is saved with that text; a name the
      form does not read is never saved. */
  lemma FormSavesField(entries: seq<FormEntry>, f: string, v: string)
    ensures f in SavedFieldNames && FormGet(entries, f) == Some(Text(v)) ==>
      f in FormSession(entries).fields && FormSession(entries).fields[f] == v
    ensures f !in SavedFieldNames ==> f !in FormSession(entries).fields
  {
  }

  /** The form reads the brand and has no producer. */
  lemma BrandReadProducerNot()
    ensures "teaBrand" in SavedFieldNames && "teaProducer" !in SavedFieldNames
  {
    assert SavedFieldNames[3] == "teaBrand";
  }

  /** A text entry for the brand is saved as the brand; the form has no
      producer, so the saved session never holds one. */
  lemma FormKeepsBrand(entries: seq<FormEntry>, brand: string)
    requires FormGet(entries, "teaBrand") == Some(Text(brand))
    ensures "teaBrand" in FormSession(entries).fields && FormSession(entries).fields["teaBrand"] == brand
    ensures "teaProducer" !in FormSession(entries).fields
  {
    BrandReadProducerNot();
    FormSavesField(entries, "teaBrand", brand);
    FormSavesField(entries, "teaProducer", brand);
  }

  /** The classification loop over the form entries. */
  method ClassifyEntries(entries: seq<FormEntry>) returns (steeps: seq<string>, customFields: seq<CustomField>)
    ensures steeps == SteepEntries(entries)
    ensures customFields == CustomEntries(entries)
  {
    steeps, customFields := [], [];
    for i := 0 to |entries|
      invariant steeps == SteepEntries(entries[..i])
      invariant customFields == CustomEntries(entries[..i])
    {
      assert entries[..i + 1][..i] == entries[..i];
      var key, value := entries[i].key, entries[i].value;
      if !value.Text? {
        continue;
      }
      if StartsWith(key, SteepPrefix) {
        steeps := steeps + [value.text];
      } else if StartsWith(key, CustomPrefix) {
        customFields := customFields + [CustomField(key, value.text)];
      }
    }
    assert entries[..|entries|] == entries;
  }

  /** Classification follows entry order: the entries of `a + b` classify as
      those of `a` followed by those of `b`. */
  lemma {:induction false} ClassifyAppend(a: seq<FormEntry>, b: seq<FormEntry>)
    ensures SteepEntries(a + b) == SteepEntries(a) + SteepEntries(b)
    ensures CustomEntries(a + b) == CustomEntries(a) + CustomEntries(b)
  {
    if b == [] {
      assert a + b == a;
    } else {
      assert (a + b)[..|a + b| - 1] == a + b[..|b| - 1];
      ClassifyAppend(a, b[..|b| - 1]);
    }
  }

  /** One entry: text under a `steep-` key is a steep (even when empty), text
      under a `custom-` key is a custom field, anything else is skipped. */
  lemma ClassifyOne(e: FormEntry)
    ensures SteepEntries([e]) == if e.value.Text? && StartsWith(e.key, SteepPrefix) then [e.value.text] else []
    ensures CustomEntries([e]) ==
      if e.value.Text? && StartsWith(e.key, CustomPrefix) then [CustomField(e.key, e.value.text)] else []
    ensures !e.value.Text? ==> SteepEntries([e]) == [] && CustomEntries([e]) == []
  {
    assert [e][..0] == [];
    if StartsWith(e.key, CustomPrefix) {
      FirstCharMismatch(e.key, SteepPrefix);
    }
  }

  /** A form of steep texts only gives every text as a steep, in order,
      empty ones included, and no custom field. */
  lemma {:induction false} SteepsKeptInOrder(entries: seq<FormEntry>)
    requires forall i :: 0 <= i < |entries| ==> entries[i].value.Text? && StartsWith(entries[i].key, SteepPrefix)
    ensures |SteepEntries(entries)| == |entries|
    ensures forall i :: 0 <= i < |entries| ==> SteepEntries(entries)[i] == entries[i].value.text
    ensures CustomEntries(entries) == []
  {
    if entries != [] {
      SteepsKeptInOrder(entries[..|entries| - 1]);
    }
  }

  // ---------------------------------------------------------------------
  // The list

  /** `state.sessions.splice(k, 1)` */
  function Spliced(s: seq<Session>, k: nat): (r: seq<Session>)
    ensures k < |s| ==> |r| == |s| - 1
    ensures k < |s| ==> forall i :: 0 <= i < k ==> r[i] == s[i]
    ensures k < |s| ==> forall i :: k <= i < |r| ==> r[i] == s[i + 1]
    ensures k >= |s| ==> r == s
  {
    if k < |s| then s[..k] + s[k + 1..] else s
  }

  /** The list after saving `session`: an edit replaces exactly the edited
      session and keeps the length; a new session is appended. */
  function Saved(sessions: seq<Session>, editing: Option<nat>, session: Session): (r: seq<Session>)
    requires editing.Some? ==> editing.value < |sessions|
    ensures editing.Some? ==>
      |r| == |sessions| && r[editing.value] == session
      && forall i :: 0 <= i < |r| && i != editing.value ==> r[i] == sessions[i]
    ensures editing.None? ==> |r| == |sessions| + 1 && r[..|sessions|] == sessions && r[|sessions|] == session
  {
    if editing.Some? then sessions[editing.value := session] else sessions + [session]
  }

  /** The edited position after a confirmed delete, tracking the edited
      session: cleared when it is the deleted one, shifted down when it came
      after it. */
  function EditingAfterDelete(editing: Option<nat>, index: nat): Option<nat> {
    match editing
    case None => None
    case Some(k) => if k == index then None else if k > index then Some(k - 1) else Some(k)
  }

  /** After a tracked delete, the edit mode still refers to the same session,
      and to a position inside the list. */
  lemma DeleteKeepsEditTarget(sessions: seq<Session>, editing: Option<nat>, index: nat)
    requires index < |sessions|
    requires editing.Some? ==> editing.value < |sessions|
    ensures var e, r := EditingAfterDelete(editing, index), Spliced(sessions, index);
      && (e.Some? ==> e.value < |r| && r[e.value] == sessions[editing.value])
      && (e.None? <==> editing.None? || editing == Some(index))
  {
  }

  /** With the delete as written, the edit mode is left as it was: the
      position now holds the next session, or lies past the list's end. */
  lemma DeleteLeavesStaleEdit()
    ensures var a, b := Session(map[], ["first"], []), Session(map[], ["second"], []);
      && Spliced([a, b], 0) == [b]
      && Spliced([a, b], 0)[0] != [a, b][0]
      && !(1 < |Spliced([a, b], 0)|)
  {
    var a, b := Session(map[], ["first"], []), Session(map[], ["second"], []);
    assert [a, b][1..] == [b];
    assert a.steeps[0] != b.steeps[0];
  }

  /** `name.replace(/^custom-/, '').replace(/-/g, ' ')` */
  function EditLabel(name: string): (text: string)
    ensures forall i :: 0 <= i < |text| ==> text[i] != '-'
    ensures StartsWith(name, CustomPrefix) ==> |text| == |name| - |CustomPrefix|
    ensures !StartsWith(name, CustomPrefix) ==> |text| == |name|
  {
    ReplaceChar(StripPrefix(name, CustomPrefix), '-', ' ')
  }

  /** `s.replace(/^./, c => c.toUpperCase())`: `.` does not match a line
      terminator. */
  function CapitalizeFirst(s: string): string {
    if |s| > 0 && !IsLineTerminator(s[0]) then [UpperChar(s[0])] + s[1..] else s
  }

  /** The name a custom field is shown under on its session card. */
  function DisplayName(name: string): string {
    CapitalizeFirst(ToLower(EditLabel(name)))
  }

  /** The shown name is the edit label with its first character upper-cased
      (unless it is a line terminator) and every other letter lower-cased; it
      has no `-`. */
  lemma DisplayNameShape(name: string)
    ensures var text, shown := EditLabel(name), DisplayName(name);
      && |shown| == |text|
      && (forall i :: 0 <= i < |shown| ==> shown[i] != '-')
      && (forall i :: 1 <= i < |shown| ==> shown[i] == LowerChar(text[i]))
      && (|shown| > 0 && !IsLineTerminator(text[0]) ==> shown[0] == UpperChar(LowerChar(text[0])))
      && (|shown| > 0 && IsLineTerminator(text[0]) ==> shown[0] == text[0])
  {
    var text := EditLabel(name);
    var lower := ToLower(text);
    if |lower| > 0 && IsLineTerminator(lower[0]) {
      assert lower[0] == text[0];
    }
  }

  /** The label of a stored `custom-` name is the rest of the name with every
      `-` made a space. */
  lemma EditLabelOfCustomName(rest: string)
    ensures EditLabel(CustomPrefix + rest) == ReplaceChar(rest, '-', ' ')
  {
    assert (CustomPrefix + rest)[..|CustomPrefix|] == CustomPrefix;
    assert (CustomPrefix + rest)[|CustomPrefix|..] == rest;
  }

  /** The labels and values the custom fields are re-created with when a
      session is edited. */
  function EditLabels(fs: seq<CustomField>): (r: seq<(string, string)>)
    ensures |r| == |fs|
    ensures forall k :: 0 <= k < |fs| ==> r[k] == (EditLabel(fs[k].name), fs[k].value)
  {
    seq(|fs|, k requires 0 <= k < |fs| => (EditLabel(fs[k].name), fs[k].value))
  }

  /** `state`: the session list and the position being edited, if any. */
  class SessionState {
    var sessions: seq<Session>
    var editingIndex: Option<nat>

    /** The edited position, if any, is inside the list. */
    predicate Valid()
      reads this
    {
      editingIndex.Some? ==> editingIndex.value < |sessions|
    }

    constructor ()
      ensures sessions == [] && editingIndex == None
      ensures Valid()
    {
      sessions := [];
      editingIndex := None;
    }

    /** `saveSession`: the form becomes a session that replaces the edited one
        or is appended; the form is then reset. */
    method SaveSession(entries: seq<FormEntry>)
      requires Valid()
      modifies this
      ensures sessions == Saved(old(sessions), old(editingIndex), FormSession(entries))
      ensures editingIndex == None
      ensures Valid()
    {
      var steeps, customFields := ClassifyEntries(entries);
      var session := Session(FormFields(entries), steeps, customFields);
      if editingIndex.Some? {
        sessions := sessions[editingIndex.value := session];
        editingIndex := None;
      } else {
        sessions := sessions + [session];
      }
      ResetSessionForm();
    }

    /** `resetSessionForm`: leaves edit mode; the list is untouched. */
    method ResetSessionForm()
      modifies this
      ensures editingIndex == None
      ensures sessions == old(sessions)
      ensures Valid()
    {
      editingIndex := None;
    }

    /** `deleteSession` as written: a confirmed delete removes the session at
        `index` (nothing when past the end); the edited position is kept. */
    method DeleteSession(index: nat, confirmed: bool)
      modifies this
      ensures sessions == if confirmed then Spliced(old(sessions), index) else old(sessions)
      ensures editingIndex == old(editingIndex)
    {
      if confirmed {
        if index < |sessions| {
          sessions := sessions[..index] + sessions[index + 1..];
        }
      }
    }

    /** The delete with the edited position kept on the same session. */
    method DeleteSessionTracked(index: nat, confirmed: bool)
      requires Valid()
      modifies this
      ensures sessions == if confirmed then Spliced(old(sessions), index) else old(sessions)
      ensures editingIndex == if confirmed && index < |old(sessions)| then EditingAfterDelete(old(editingIndex), index)
                              else old(editingIndex)
      ensures Valid()
    {
      if confirmed && index < |sessions| {
        DeleteKeepsEditTarget(sessions, editingIndex, index);
        sessions := sessions[..index] + sessions[index + 1..];
        editingIndex := EditingAfterDelete(editingIndex, index);
      }
    }

    /** `startEditSession`: enters edit mode on `index` and gives the labels
        and values its custom fields are re-created with. */
    method StartEditSession(index: nat) returns (labels: seq<(string, string)>)
      requires index < |sessions|
      modifies this
      ensures editingIndex == Some(index)
      ensures sessions == old(sessions)
      ensures labels == EditLabels(sessions[index].customFields)
      ensures Valid()
    {
      editingIndex := Some(index);
      labels := [];
      var fs := sessions[index].customFields;
      for k := 0 to |fs|
        invariant labels == EditLabels(fs[..k])
      {
        labels := labels + [(EditLabel(fs[k].name), fs[k].value)];
      }
      assert fs[..|fs|] == fs;
    }
  }
}
