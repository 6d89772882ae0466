/** The reservation form's validator in its second form (`validate`): one
    independent `if` per field, each writing its own slot, and the same
    opening-hours window on the time. The browser's own verdicts on the
    email and phone inputs (`validity.valid`) are read, not computed, so
    they arrive as inputs. */
module IndependentValidator {
  import opened JsBuiltins
  import opened OpeningHours
  import opened FormFields

  const NameMessage := "Shkruani emrin."
  const EmailMessage := "Email i pavlefshëm."
  const PhoneMessage := "Numër telefoni i pavlefshëm."
  const GuestsMessage := "≥ 1."
  const DateMessage := "Zgjidhni datën."
  const TimeMessage := "Zgjidhni orën."
  const HoursMessage := "Orari: 10:00 - 23:00."

  /** What the browser's constraint validation says of the email and phone
      inputs. */
  datatype Validity = Validity(emailValid: bool, phoneValid: bool)

  predicate NameFails(v: string)
  {
    Trim(v) == []
  }

  /** `!guests.value || Number(guests.value) < 1`; NaN compares false. */
  predicate GuestsFails(v: string)
  {
    || v == []
    || match JsNumber(v)
       case Some(n) => n < 1.0
       case None => false
  }

  /** The message slot `slot` ends with, decided by its own input alone
      (and, for the time, the opening-hours check after the empty check). */
  function SlotMessage(form: map<string, string>, validity: Validity, slot: Field): string
  {
    var v := FieldValue(form, slot);
    match slot
    case Name => if NameFails(v) then NameMessage else ""
    case Email => if !validity.emailValid then EmailMessage else ""
    case Phone => if !validity.phoneValid then PhoneMessage else ""
    case Guests => if GuestsFails(v) then GuestsMessage else ""
    case Date => if v == [] then DateMessage else ""
    case Time => if v == [] then TimeMessage else if OutsideOpeningHours(v) then HoursMessage else ""
  }

  /** The verdict `validate` returns. */
  predicate FormAccepted(form: map<string, string>, validity: Validity)
  {
    && !NameFails(FieldValue(form, Name))
    && validity.emailValid
    && validity.phoneValid
    && !GuestsFails(FieldValue(form, Guests))
    && FieldValue(form, Date) != []
    && FieldValue(form, Time) != []
    && !OutsideOpeningHours(FieldValue(form, Time))
  }

  /** The slot map `validate` leaves behind: every slot holds its own
      message, and all are empty exactly when the form is accepted. */
  lemma SlotMapOf(form: map<string, string>, validity: Validity, errors: map<Field, string>,
                  name: string, email: string, phone: string, guests: string, date: string, time: string)
    requires name == SlotMessage(form, validity, Name) && email == SlotMessage(form, validity, Email)
    requires phone == SlotMessage(form, validity, Phone) && guests == SlotMessage(form, validity, Guests)
    requires date == SlotMessage(form, validity, Date) && time == SlotMessage(form, validity, Time)
    requires errors == map[Name := name, Email := email, Phone := phone, Guests := guests, Date := date, Time := time]
    ensures errors.Keys == AllFields
    ensures forall k :: k in AllFields ==> errors[k] == SlotMessage(form, validity, k)
    ensures FormAccepted(form, validity) <==> forall k :: k in errors ==> errors[k] == ""
  {
    assert errors[Name] == SlotMessage(form, validity, Name);
    assert errors[Time] == SlotMessage(form, validity, Time);
    AcceptedIffSlotsEmpty(form, validity);
  }

  lemma AcceptedIffSlotsEmpty(form: map<string, string>, validity: Validity)
    ensures FormAccepted(form, validity) <==> forall k :: k in AllFields ==> SlotMessage(form, validity, k) == ""
  {
    if FormAccepted(form, validity) {
      forall k | k in AllFields
        ensures SlotMessage(form, validity, k) == ""
      {
        AcceptedSlotEmpty(form, validity, k);
      }
    } else {
      var k := RefusedSlot(form, validity);
    }
  }

  lemma AcceptedSlotEmpty(form: map<string, string>, validity: Validity, k: Field)
    requires FormAccepted(form, validity)
    ensures SlotMessage(form, validity, k) == ""
  {
  }

  lemma RefusedSlot(form: map<string, string>, validity: Validity) returns (k: Field)
    requires !FormAccepted(form, validity)
    ensures SlotMessage(form, validity, k) != ""
  {
    assert NameMessage != "" && EmailMessage != "" && PhoneMessage != "";
    assert GuestsMessage != "" && DateMessage != "" && TimeMessage != "" && HoursMessage != "";
    if SlotMessage(form, validity, Name) != "" { k := Name; }
    else if SlotMessage(form, validity, Email) != "" { k := Email; }
    else if SlotMessage(form, validity, Phone) != "" { k := Phone; }
    else if SlotMessage(form, validity, Guests) != "" { k := Guests; }
    else if SlotMessage(form, validity, Date) != "" { k := Date; }
    else { k := Time; }
  }

  /** `validate`: clears every slot, runs the six independent checks, then
      the opening-hours check on a non-empty time. */
  method Validate(form: map<string, string>, validity: Validity) returns (ok: bool, errors: map<Field, string>)
    ensures errors.Keys == AllFields
    ensures forall k :: k in AllFields ==> errors[k] == SlotMessage(form, validity, k)
    ensures ok <==> FormAccepted(form, validity)
    ensures ok <==> forall k :: k in errors ==> errors[k] == ""
  {
    ok := true;
    var nameError, emailError, phoneError, guestsError, dateError, timeError := "", "", "", "", "", "";
    var name, guests := FieldValue(form, Name), FieldValue(form, Guests);
    var date, time := FieldValue(form, Date), FieldValue(form, Time);
    if Trim(name) == [] {
      nameError := NameMessage;
      ok := false;
    }
    assert nameError == SlotMessage(form, validity, Name);
    if !validity.emailValid {
      emailError := EmailMessage;
      ok := false;
    }
    assert emailError == SlotMessage(form, validity, Email);
    if !validity.phoneValid {
      phoneError := PhoneMessage;
      ok := false;
    }
    assert phoneError == SlotMessage(form, validity, Phone);
    if guests == [] || (JsNumber(guests).Some? && JsNumber(guests).value < 1.0) {
      guestsError := GuestsMessage;
      ok := false;
    }
    assert guestsError == SlotMessage(form, validity, Guests);
    if date == [] {
      dateError := DateMessage;
      ok := false;
    }
    assert dateError == SlotMessage(form, validity, Date);
    if time == [] {
      timeError := TimeMessage;
      ok := false;
    }
    if time != [] {
      var minutes := MinutesSinceMidnight(time);
      OutsideByMinutes(time, minutes);
      if minutes.Some? && (minutes.value < OpenMinutes as real || minutes.value > CloseMinutes as real) {
        timeError := HoursMessage;
        ok := false;
      }
      assert timeError == (if OutsideOpeningHours(time) then HoursMessage else "");
    }
    assert timeError == SlotMessage(form, validity, Time);
    errors := map[Name := nameError, Email := emailError, Phone := phoneError,
                  Guests := guestsError, Date := dateError, Time := timeError];
    SlotMapOf(form, validity, errors, nameError, emailError, phoneError, guestsError, dateError, timeError);
  }

  /** Each slot depends on its own field only: changing any other field
      leaves it as it was. */
  lemma SlotsAreIndependent(form: map<string, string>, other: map<string, string>, validity: Validity, slot: Field)
    requires FieldValue(form, slot) == FieldValue(other, slot)
    ensures SlotMessage(form, validity, slot) == SlotMessage(other, validity, slot)
  {
  }

  /** The "choose a time" and "outside opening hours" messages never
      compete: the window is checked only on a non-empty time. */
  lemma EmptyTimeNeverOutside(form: map<string, string>, validity: Validity)
    ensures SlotMessage(form, validity, Time) == TimeMessage <==> FieldValue(form, Time) == []
    ensures SlotMessage(form, validity, Time) == HoursMessage <==>
      FieldValue(form, Time) != [] && OutsideOpeningHours(FieldValue(form, Time))
  {
    assert TimeMessage[0] == 'Z' && HoursMessage[0] == 'O';
  }

  /** The name fails exactly when it is blank after trimming. */
  lemma NameFailsIff(v: string)
    ensures NameFails(v) <==> forall i :: 0 <= i < |v| ==> IsJsSpace(v[i])
  {
  }

  /** The guest count fails when empty, when blank (blank reads as 0) and
      when it reads as a number below 1; an unreadable count passes. */
  lemma GuestsFailsCases(v: string)
    ensures v == [] ==> GuestsFails(v)
    ensures (forall i :: 0 <= i < |v| ==> IsJsSpace(v[i])) ==> GuestsFails(v)
    ensures v != [] && JsNumber(v).None? ==> !GuestsFails(v)
  {
  }

  /** A written-out count of one or more guests passes. */
  lemma PositiveGuestCountPasses(n: nat)
    requires n >= 1
    ensures !GuestsFails(NatToString(n))
  {
    JsNumberOfNatToString(n);
  }

  /** Half a guest reads as 0.5, below 1, and fails. */
  lemma HalfGuestFails()
    ensures GuestsFails("0.5")
  {
    NumberOfHalf();
  }
}
