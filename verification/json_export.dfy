/**
 * The document export: the session list as it is handed to `JSON.stringify`.
 * The list is taken as a value, so the export cannot change the caller's list.
 */
module JsonExport {
  import opened JsBuiltins
  import opened SessionModel

  /** The cloned and filtered list that is serialised. */
  function ExportToJson(sessions: seq<Session>): (doc: seq<Session>)
    ensures |doc| == |sessions|
  {
    seq(|sessions|, i requires 0 <= i < |sessions| => Cleaned(sessions[i]))
  }

  /** Same length and order; static fields unchanged; an empty list exports as
      an empty list. */
  lemma ExportKeepsSessions(sessions: seq<Session>)
    ensures |ExportToJson(sessions)| == |sessions|
    ensures sessions == [] ==> ExportToJson(sessions) == []
    ensures forall i :: 0 <= i < |sessions| ==> ExportToJson(sessions)[i].fields == sessions[i].fields
  {
  }

  /** The exported steeps of a session are its steeps with every `""` removed:
      none is empty, every non-empty steep occurs as often as in the original,
      and removal commutes with splitting the list, so order is kept. */
  lemma {:induction false} ExportFiltersSteeps(sessions: seq<Session>, i: nat)
    requires i < |sessions|
    ensures var out := ExportToJson(sessions)[i].steeps;
      && (forall k :: 0 <= k < |out| ==> out[k] != "")
      && (forall x: string :: x != "" ==> multiset(out)[x] == multiset(sessions[i].steeps)[x])
      && (forall a, b :: sessions[i].steeps == a + b ==>
            out == Filter(a, IsNonEmpty) + Filter(b, IsNonEmpty))
  {
    FilterCounts(sessions[i].steeps, IsNonEmpty);
    forall a, b | sessions[i].steeps == a + b
      ensures ExportToJson(sessions)[i].steeps == Filter(a, IsNonEmpty) + Filter(b, IsNonEmpty)
    {
      FilterAppend(a, b, IsNonEmpty);
    }
  }

  /** The exported custom fields are the ones with a non-empty value, each as
      often as in the original, in their original relative order. */
  lemma {:induction false} ExportFiltersCustomFields(sessions: seq<Session>, i: nat)
    requires i < |sessions|
    ensures var out := ExportToJson(sessions)[i].customFields;
      && (forall k :: 0 <= k < |out| ==> out[k].value != "")
      && (forall f: CustomField :: f.value != "" ==>
            multiset(out)[f] == multiset(sessions[i].customFields)[f])
      && (forall a, b :: sessions[i].customFields == a + b ==>
            out == Filter(a, HasValue) + Filter(b, HasValue))
  {
    FilterCounts(sessions[i].customFields, HasValue);
    forall a, b | sessions[i].customFields == a + b
      ensures ExportToJson(sessions)[i].customFields == Filter(a, HasValue) + Filter(b, HasValue)
    {
      FilterAppend(a, b, HasValue);
    }
  }

  /** Exporting an exported list gives the same list. */
  lemma ExportIdempotent(sessions: seq<Session>)
    ensures ExportToJson(ExportToJson(sessions)) == ExportToJson(sessions)
  {
    forall i | 0 <= i < |sessions|
      ensures ExportToJson(ExportToJson(sessions))[i] == ExportToJson(sessions)[i]
    {
      CleanedIdempotent(sessions[i]);
    }
  }
}
