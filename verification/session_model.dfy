/**
 * The session record shared by both exchange formats, the fixed ordered list
 * of static field names, and the clone-and-filter step both exports apply
 * before serialising.
 *
 * A session's static part is a map from field name to text: a key that is
 * not in the map is a property the JavaScript object does not have
 * (`undefined`).
 */
module SessionModel {
  import opened JsBuiltins

  datatype CustomField = CustomField(name: string, value: string)

  datatype Session = Session(
    fields: map<string, string>,
    steeps: seq<string>,
    customFields: seq<CustomField>)

  /** The static field names, in export column order. */
  const StaticFields: seq<string> := [
    "datetime", "brewingVessel", "teaName", "teaProducer", "origin", "year",
    "purchaseLocation", "dryLeaf", "wetLeaf", "additionalNotes"
  ]

  const SteepPrefix: string := "steep-"
  const CustomPrefix: string := "custom-"

  /** The names every static field list must satisfy: distinct, holding both
      required fields, and never mistaken for a steep or custom column. */
  lemma StaticFieldsWellFormed()
    ensures forall i, j :: 0 <= i < j < |StaticFields| ==> StaticFields[i] != StaticFields[j]
    ensures "datetime" in StaticFields && "teaName" in StaticFields
    ensures forall i :: 0 <= i < |StaticFields| ==>
      !StartsWith(StaticFields[i], SteepPrefix) && !StartsWith(StaticFields[i], CustomPrefix)
  {
    forall i | 0 <= i < |StaticFields|
      ensures !StartsWith(StaticFields[i], SteepPrefix) && !StartsWith(StaticFields[i], CustomPrefix)
    {
      FirstCharMismatch(StaticFields[i], SteepPrefix);
      FirstCharMismatch(StaticFields[i], CustomPrefix);
    }
  }

  /** `steep.length > 0` */
  predicate IsNonEmpty(s: string) { |s| > 0 }

  /** `field.value !== ''` */
  predicate HasValue(f: CustomField) { f.value != "" }

  /** The clone both exports make of a session: static fields as they are,
      empty steeps and empty-valued custom fields dropped. */
  function Cleaned(s: Session): (c: Session)
    ensures c.fields == s.fields
    ensures forall i :: 0 <= i < |c.steeps| ==> c.steeps[i] != ""
    ensures forall i :: 0 <= i < |c.customFields| ==> c.customFields[i].value != ""
  {
    s.(steeps := Filter(s.steeps, IsNonEmpty),
       customFields := Filter(s.customFields, HasValue))
  }

  /** Cleaning a cleaned session changes nothing. */
  lemma CleanedIdempotent(s: Session)
    ensures Cleaned(Cleaned(s)) == Cleaned(s)
  {
    FilterIdempotent(s.steeps, IsNonEmpty);
    FilterIdempotent(s.customFields, HasValue);
  }

  /** The value of a static field as the export writes it: an absent
      (`undefined`) property becomes an empty cell. */
  function StaticValue(s: Session, name: string): string {
    if name in s.fields then s.fields[name] else ""
  }
}
