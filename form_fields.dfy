/** The six inputs of the reservation form and the error slot each one
    owns. Both validators key their error slots by these fields; the form
    itself is read by input name. */
module FormFields {
  /** An input of the reservation form (and its error slot). */
  datatype Field = Name | Email | Phone | Guests | Date | Time

  /** Every error slot on the page. */
  const AllFields: set<Field> := {Name, Email, Phone, Guests, Date, Time}

  lemma EveryFieldHasASlot(f: Field)
    ensures f in AllFields
  {
  }

  /** The input's `name` (and its slot's `data-for`). */
  function InputName(field: Field): string
  {
    match field
    case Name => "name"
    case Email => "email"
    case Phone => "phone"
    case Guests => "guests"
    case Date => "date"
    case Time => "time"
  }

  /** The text of an input; an input missing from the form reads as empty. */
  function FieldValue(form: map<string, string>, field: Field): string
  {
    var key := InputName(field);
    if key in form then form[key] else ""
  }
}
