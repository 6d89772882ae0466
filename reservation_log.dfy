/** What a reservation submit does with the browser's storage: after a
    successful validation it reads the `reservations` list (a missing entry
    reads as the empty list), appends one record stamped with its creation
    time and writes the list back. A rejected form leaves storage alone. */
module ReservationLog {
  import RuleChainValidator
  import IndependentValidator

  /** A stored record: the submitted fields and the `createdAt` stamp. */
  datatype Reservation = Reservation(fields: map<string, string>, createdAt: string)

  /** The `reservations` storage entry: absent (or empty), a JSON array of
      records, or text that `JSON.parse` rejects or that is not an array,
      on which the handler throws before writing anything. */
  datatype Stored = Missing | Entries(list: seq<Reservation>) | Malformed

  datatype SubmitOutcome = Rejected | Saved | StorageError

  /** The list the handler starts from: `JSON.parse(stored || '[]')`. */
  function Existing(s: Stored): (list: seq<Reservation>)
    requires !s.Malformed?
    ensures s.Missing? ==> list == []
    ensures s.Entries? ==> list == s.list
  {
    if s.Entries? then s.list else []
  }

  /** The entry written back after `push(record)`: every earlier record in
      its place, and the new one last. */
  function Appended(s: Stored, record: Reservation): (t: Stored)
    requires !s.Malformed?
    ensures t.Entries? && |t.list| == |Existing(s)| + 1
    ensures t.list[..|Existing(s)|] == Existing(s)
    ensures t.list[|Existing(s)|] == record
  {
    Entries(Existing(s) + [record])
  }

  /** The fields the rule-chain page keeps: the seven it destructures from
      the form. A field the form lacks is `undefined`, which
      `JSON.stringify` drops. */
  const RecordKeys: set<string> := {"name", "email", "phone", "guests", "date", "time", "message"}

  function RuleChainRecord(form: map<string, string>, createdAt: string): (r: Reservation)
    ensures r.fields.Keys == form.Keys * RecordKeys
    ensures forall k :: k in r.fields ==> r.fields[k] == form[k]
    ensures r.createdAt == createdAt
  {
    Reservation(map k | k in form && k in RecordKeys :: form[k], createdAt)
  }

  /** `{...formData, createdAt}`: every form field, with `createdAt`
      overriding a field of that name. */
  function SpreadRecord(form: map<string, string>, createdAt: string): (r: Reservation)
    ensures r.fields.Keys == form.Keys - {"createdAt"}
    ensures forall k :: k in r.fields ==> r.fields[k] == form[k]
    ensures r.createdAt == createdAt
  {
    Reservation(map k | k in form && k != "createdAt" :: form[k], createdAt)
  }

  /** Two accepted submits in a row leave both records at the end, in
      submission order. */
  lemma AppendTwice(s: Stored, a: Reservation, b: Reservation)
    requires !s.Malformed?
    ensures Existing(Appended(Appended(s, a), b)) == Existing(s) + [a, b]
  {
    assert Existing(Appended(s, a)) == Existing(s) + [a];
  }

  /** The page's `localStorage` entry for reservations. */
  class ReservationStorage {
    var stored: Stored

    constructor (stored: Stored)
      ensures this.stored == stored
    {
      this.stored := stored;
    }

    /** The submit handler of the rule-chain page. */
    method SubmitWithRuleChain(form: map<string, string>, createdAt: string) returns (outcome: SubmitOutcome)
      modifies this
      ensures outcome == Rejected <==> !RuleChainValidator.FormAccepted(form)
      ensures outcome == StorageError <==> RuleChainValidator.FormAccepted(form) && old(stored).Malformed?
      ensures outcome == Saved ==> stored == Appended(old(stored), RuleChainRecord(form, createdAt))
      ensures outcome != Saved ==> stored == old(stored)
    {
      var isValid, _ := RuleChainValidator.ValidateReservationForm(form);
      if !isValid {
        return Rejected;
      }
      if stored.Malformed? {
        return StorageError;
      }
      var reservations := Existing(stored);
      reservations := reservations + [RuleChainRecord(form, createdAt)];
      stored := Entries(reservations);
      outcome := Saved;
    }

    /** The submit handler of the independent-checks page; the browser's
        verdicts on the email and phone inputs are passed in. */
    method SubmitWithIndependentChecks(form: map<string, string>, validity: IndependentValidator.Validity, createdAt: string)
      returns (outcome: SubmitOutcome)
      modifies this
      ensures outcome == Rejected <==> !IndependentValidator.FormAccepted(form, validity)
      ensures outcome == StorageError <==> IndependentValidator.FormAccepted(form, validity) && old(stored).Malformed?
      ensures outcome == Saved ==> stored == Appended(old(stored), SpreadRecord(form, createdAt))
      ensures outcome != Saved ==> stored == old(stored)
    {
      var ok, _ := IndependentValidator.Validate(form, validity);
      if !ok {
        return Rejected;
      }
      if stored.Malformed? {
        return StorageError;
      }
      var existing := Existing(stored);
      existing := existing + [SpreadRecord(form, createdAt)];
      stored := Entries(existing);
      outcome := Saved;
    }
  }
}
