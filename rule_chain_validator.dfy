/** The reservation form's validator in its rule-table form
    (`validateReservationForm`): every field carries a rule, the checks of
    a rule run as an if/else-if chain so that the first failing check
    alone sets the field's message, and an opening-hours check on the time
    follows the loop over the fields. */
module RuleChainValidator {
  import opened JsBuiltins
  import opened OpeningHours
  import opened FormFields

  /** One row of the `fields` table. A `minLength` or `min` of 0 means the
      row has no such check, just as JavaScript treats 0 like a missing
      property in `minLength && ...`. `phonePattern` stands for the one
      pattern the table uses, `/^[0-9+() \-]{7,}$/`. */
  datatype FieldRule = FieldRule(
    key: Field,
    required: bool,
    minLength: nat,
    isEmail: bool,
    phonePattern: bool,
    min: int)

  const NameRule := FieldRule(Name, true, 2, false, false, 0)
  const EmailRule := FieldRule(Email, true, 0, true, false, 0)
  const PhoneRule := FieldRule(Phone, true, 0, false, true, 0)
  const GuestsRule := FieldRule(Guests, true, 0, false, false, 1)
  const DateRule := FieldRule(Date, true, 0, false, false, 0)
  const TimeRule := FieldRule(Time, true, 0, false, false, 0)

  /** The table, in the order `Object.entries` visits it. */
  const FieldRules: seq<FieldRule> := [NameRule, EmailRule, PhoneRule, GuestsRule, DateRule, TimeRule]

  const RequiredMessage := "Kjo fushë është e detyrueshme. "
  const EmailMessage := "Email i pavlefshëm. "
  const FormatMessage := "Format i pavlefshëm."
  const HoursMessage := "Orari:  10:00 - 23:00"

  function MinLengthMessage(n: nat): string
  {
    "Minimum " + NatToString(n) + " karaktere. "
  }

  function MinMessage(m: int): string
  {
    "Vlera minimum:  " + IntToString(m)
  }

  /** A character of the class `[0-9+() \-]`. */
  predicate IsPhoneChar(c: char)
  {
    IsDigit(c) || c == '+' || c == '(' || c == ')' || c == ' ' || c == '-'
  }

  /** `/^[0-9+() \-]{7,}$/.test(v)`: seven or more characters, all from
      the class. */
  predicate MatchesPhonePattern(v: string)
  {
    |v| >= 7 && forall i :: 0 <= i < |v| ==> IsPhoneChar(v[i])
  }

  predicate FailsRequired(rule: FieldRule, v: string)
  {
    rule.required && Trim(v) == []
  }

  /** The length check counts the untrimmed value. */
  predicate FailsMinLength(rule: FieldRule, v: string)
  {
    rule.minLength != 0 && |v| < rule.minLength
  }

  predicate FailsEmail(rule: FieldRule, v: string)
  {
    rule.isEmail && !Includes(v, "@")
  }

  predicate FailsPattern(rule: FieldRule, v: string)
  {
    rule.phonePattern && !MatchesPhonePattern(v)
  }

  /** `Number(v) < min`; NaN compares false, so it never fails. */
  predicate FailsMin(rule: FieldRule, v: string)
  {
    && rule.min != 0
    && match JsNumber(v)
       case Some(n) => n < rule.min as real
       case None => false
  }

  /** The message the if/else-if chain writes for `v`: that of the first
      failing check in the order required, minLength, isEmail, pattern,
      min, or None when no check fails. */
  function FirstFailure(rule: FieldRule, v: string): (r: Option<string>)
    ensures r.None? <==>
      !FailsRequired(rule, v) && !FailsMinLength(rule, v) && !FailsEmail(rule, v)
      && !FailsPattern(rule, v) && !FailsMin(rule, v)
    ensures r.Some? ==> r.value != ""
  {
    if FailsRequired(rule, v) then Some(RequiredMessage)
    else if FailsMinLength(rule, v) then Some(MinLengthMessage(rule.minLength))
    else if FailsEmail(rule, v) then Some(EmailMessage)
    else if FailsPattern(rule, v) then Some(FormatMessage)
    else if FailsMin(rule, v) then Some(MinMessage(rule.min))
    else None
  }

  /** What an error slot shows: the message, or the cleared text. */
  function SlotText(failure: Option<string>): string
  {
    match failure
    case Some(m) => m
    case None => ""
  }

  /** The verdict `validateReservationForm` returns: no field check
      failed and the time is not outside opening hours. */
  predicate FormAccepted(form: map<string, string>)
  {
    && (forall i :: 0 <= i < |FieldRules| ==> FirstFailure(FieldRules[i], FieldValue(form, FieldRules[i].key)).None?)
    && !OutsideOpeningHours(FieldValue(form, Time))
  }

  /** No two rules of a table name the same field. */
  predicate DistinctKeys(rules: seq<FieldRule>)
  {
    forall i, j :: 0 <= i < j < |rules| ==> rules[i].key != rules[j].key
  }

  function Keys(rules: seq<FieldRule>): set<Field>
  {
    set rule | rule in rules :: rule.key
  }

  lemma FieldRulesShape()
    ensures DistinctKeys(FieldRules)
    ensures Keys(FieldRules) == AllFields
    ensures FieldRules[5] == TimeRule
    ensures forall rule :: rule in FieldRules && rule != TimeRule ==> rule.key != Time
  {
    assert FieldRules[0].key == Name && FieldRules[1].key == Email && FieldRules[2].key == Phone;
    assert FieldRules[3].key == Guests && FieldRules[4].key == Date && FieldRules[5].key == Time;
  }

  /** The check a rule runs on its own field of `form`. */
  function RuleCheck(form: map<string, string>): FieldRule -> Option<string>
  {
    (rule: FieldRule) => FirstFailure(rule, FieldValue(form, rule.key))
  }

  /** The slots after `rules` have run in order from cleared slots: a rule
      whose check fails writes its message into its field's slot, a rule
      that passes leaves the slot as it was. */
  function SlotsAfter(check: FieldRule -> Option<string>, rules: seq<FieldRule>): map<Field, string>
    decreases |rules|
  {
    if rules == [] then map f | f in AllFields :: ""
    else
      var rest := SlotsAfter(check, rules[..|rules| - 1]);
      var rule := rules[|rules| - 1];
      if check(rule).Some? then rest[rule.key := check(rule).value] else rest
  }

  /** The flag after `rules` have run in order: it drops at the first
      failing check and never rises again. */
  predicate AllPass(check: FieldRule -> Option<string>, rules: seq<FieldRule>)
    decreases |rules|
  {
    || rules == []
    || (AllPass(check, rules[..|rules| - 1]) && check(rules[|rules| - 1]).None?)
  }

  /** Running the table never adds or removes a slot. */
  lemma {:induction false} SlotsAfterKeys(check: FieldRule -> Option<string>, rules: seq<FieldRule>)
    ensures SlotsAfter(check, rules).Keys == AllFields
    decreases |rules|
  {
    if rules != [] {
      SlotsAfterKeys(check, rules[..|rules| - 1]);
      EveryFieldHasASlot(rules[|rules| - 1].key);
    }
  }

  /** A slot no rule of the table names stays cleared. */
  lemma {:induction false} SlotsAfterUntouched(check: FieldRule -> Option<string>, rules: seq<FieldRule>, f: Field)
    requires forall j :: 0 <= j < |rules| ==> rules[j].key != f
    ensures f in SlotsAfter(check, rules) && SlotsAfter(check, rules)[f] == ""
    decreases |rules|
  {
    EveryFieldHasASlot(f);
    if rules != [] {
      SlotsAfterUntouched(check, rules[..|rules| - 1], f);
    }
  }

  /** With distinct keys, every rule's slot ends with its own check's
      message, or cleared when its check passes. */
  lemma {:induction false} SlotsAfterValues(check: FieldRule -> Option<string>, rules: seq<FieldRule>)
    requires DistinctKeys(rules)
    ensures forall j :: 0 <= j < |rules| ==>
      rules[j].key in SlotsAfter(check, rules) && SlotsAfter(check, rules)[rules[j].key] == SlotText(check(rules[j]))
    decreases |rules|
  {
    SlotsAfterKeys(check, rules);
    if rules != [] {
      var init := rules[..|rules| - 1];
      var rule := rules[|rules| - 1];
      assert DistinctKeys(init);
      SlotsAfterValues(check, init);
      SlotsAfterKeys(check, init);
      assert forall j :: 0 <= j < |init| ==> init[j] == rules[j] && init[j].key != rule.key;
      SlotsAfterUntouched(check, init, rule.key);
    }
  }

  /** The flag stays up exactly when no rule's check fails. */
  lemma {:induction false} AllPassIff(check: FieldRule -> Option<string>, rules: seq<FieldRule>)
    ensures AllPass(check, rules) <==> forall j :: 0 <= j < |rules| ==> check(rules[j]).None?
    decreases |rules|
  {
    if rules != [] {
      var init := rules[..|rules| - 1];
      AllPassIff(check, init);
      assert forall j :: 0 <= j < |init| ==> init[j] == rules[j];
    }
  }

  /** When the table names every slot and no check fails with an empty
      message, the flag stays up exactly when every slot ends empty. */
  lemma AllPassIffSlotsEmpty(check: FieldRule -> Option<string>, rules: seq<FieldRule>)
    requires DistinctKeys(rules) && Keys(rules) == AllFields
    requires forall j :: 0 <= j < |rules| && check(rules[j]).Some? ==> check(rules[j]).value != ""
    ensures AllPass(check, rules) <==> forall f :: f in SlotsAfter(check, rules) ==> SlotsAfter(check, rules)[f] == ""
  {
    var slots := SlotsAfter(check, rules);
    SlotsAfterKeys(check, rules);
    SlotsAfterValues(check, rules);
    AllPassIff(check, rules);
    if AllPass(check, rules) {
      forall f | f in slots
        ensures slots[f] == ""
      {
        var rule :| rule in rules && rule.key == f;
        var j :| 0 <= j < |rules| && rules[j] == rule;
      }
    } else {
      var j :| 0 <= j < |rules| && check(rules[j]).Some?;
      assert slots[rules[j].key] != "";
    }
  }

  /** The `forEach` over the rule table: starting from cleared slots, each
      rule's slot receives the message of its first failing check, and
      the flag drops as soon as one field fails. */
  method CheckFields(form: map<string, string>, rules: seq<FieldRule>) returns (allPass: bool, errors: map<Field, string>)
    ensures errors == SlotsAfter(RuleCheck(form), rules)
    ensures allPass == AllPass(RuleCheck(form), rules)
  {
    allPass := true;
    errors := map f | f in AllFields :: "";
    for i := 0 to |rules|
      invariant errors == SlotsAfter(RuleCheck(form), rules[..i])
      invariant allPass == AllPass(RuleCheck(form), rules[..i])
    {
      var rule := rules[i];
      var failure := FirstFailure(rule, FieldValue(form, rule.key));
      assert rules[..i + 1][..i] == rules[..i];
      assert RuleCheck(form)(rule) == failure;
      if failure.Some? {
        errors := errors[rule.key := failure.value];
        allPass := false;
      }
    }
    assert rules[..|rules|] == rules;
  }

  /** The hours message written over the time slot: the other slots keep
      the loop's text, and every slot is empty exactly when the loop left
      them all empty and no override happened. */
  lemma TimeOverride(fieldErrors: map<Field, string>, errors: map<Field, string>, outside: bool)
    requires fieldErrors.Keys == AllFields
    requires errors == if outside then fieldErrors[Time := HoursMessage] else fieldErrors
    ensures errors.Keys == AllFields
    ensures forall k :: k in errors && k != Time ==> errors[k] == fieldErrors[k]
    ensures errors[Time] == if outside then HoursMessage else fieldErrors[Time]
    ensures (forall k :: k in errors ==> errors[k] == "") <==>
      !outside && forall k :: k in fieldErrors ==> fieldErrors[k] == ""
  {
    assert Time in AllFields;
    assert HoursMessage != "";
  }

  /** The loop over the page's table leaves each field's slot holding
      the message of its rule's first failing check, or cleared. */
  lemma TableSlots(form: map<string, string>)
    ensures SlotsAfter(RuleCheck(form), FieldRules).Keys == AllFields
    ensures forall rule :: rule in FieldRules ==>
      SlotsAfter(RuleCheck(form), FieldRules)[rule.key] == SlotText(FirstFailure(rule, FieldValue(form, rule.key)))
  {
    var check := RuleCheck(form);
    FieldRulesShape();
    SlotsAfterKeys(check, FieldRules);
    SlotsAfterValues(check, FieldRules);
    forall rule | rule in FieldRules
      ensures SlotsAfter(check, FieldRules)[rule.key] == SlotText(FirstFailure(rule, FieldValue(form, rule.key)))
    {
      var j :| 0 <= j < |FieldRules| && FieldRules[j] == rule;
    }
  }

  /** The loop over the page's table keeps its flag up exactly when every
      check passes, which is exactly when every slot ends empty. */
  lemma TableFlag(form: map<string, string>)
    ensures AllPass(RuleCheck(form), FieldRules) <==>
      forall i :: 0 <= i < |FieldRules| ==> FirstFailure(FieldRules[i], FieldValue(form, FieldRules[i].key)).None?
    ensures AllPass(RuleCheck(form), FieldRules) <==>
      forall f :: f in SlotsAfter(RuleCheck(form), FieldRules) ==> SlotsAfter(RuleCheck(form), FieldRules)[f] == ""
  {
    var check := RuleCheck(form);
    FieldRulesShape();
    AllPassIff(check, FieldRules);
    AllPassIffSlotsEmpty(check, FieldRules);
  }

  /** What the time check leaves behind, given the loop's result: the
      hours message overrides the time slot when the time is outside the
      window, and the verdict is the loop's flag and the time check. */
  lemma AfterTimeCheck(form: map<string, string>, allPass: bool, fieldErrors: map<Field, string>,
                       isValid: bool, errors: map<Field, string>)
    requires fieldErrors == SlotsAfter(RuleCheck(form), FieldRules)
    requires allPass == AllPass(RuleCheck(form), FieldRules)
    requires errors == if OutsideOpeningHours(FieldValue(form, Time)) then fieldErrors[Time := HoursMessage] else fieldErrors
    requires isValid == (allPass && !OutsideOpeningHours(FieldValue(form, Time)))
    ensures errors.Keys == AllFields
    ensures forall rule :: rule in FieldRules && rule != TimeRule ==>
      errors[rule.key] == SlotText(FirstFailure(rule, FieldValue(form, rule.key)))
    ensures errors[Time] ==
      if OutsideOpeningHours(FieldValue(form, Time)) then HoursMessage
      else SlotText(FirstFailure(TimeRule, FieldValue(form, Time)))
    ensures isValid <==> FormAccepted(form)
    ensures isValid <==> forall k :: k in errors ==> errors[k] == ""
  {
    FieldRulesShape();
    TableSlots(form);
    TableFlag(form);
    TimeOverride(fieldErrors, errors, OutsideOpeningHours(FieldValue(form, Time)));
  }

  /** `validateReservationForm` on the form's current values: clears every
      error slot, walks the rule table writing each field's first failing
      message, then applies the opening-hours check to the time. */
  method ValidateReservationForm(form: map<string, string>) returns (isValid: bool, errors: map<Field, string>)
    ensures errors.Keys == AllFields
    ensures forall rule :: rule in FieldRules && rule != TimeRule ==>
      errors[rule.key] == SlotText(FirstFailure(rule, FieldValue(form, rule.key)))
    ensures errors[Time] ==
      if OutsideOpeningHours(FieldValue(form, Time)) then HoursMessage
      else SlotText(FirstFailure(TimeRule, FieldValue(form, Time)))
    ensures isValid <==> FormAccepted(form)
    ensures isValid <==> forall k :: k in errors ==> errors[k] == ""
  {
    var allPass, fieldErrors := CheckFields(form, FieldRules);
    isValid, errors := allPass, fieldErrors;
    var time := FieldValue(form, Time);
    if time != "" {
      var minutes := MinutesSinceMidnight(time);
      OutsideByMinutes(time, minutes);
      if minutes.Some? && (minutes.value < OpenMinutes as real || minutes.value > CloseMinutes as real) {
        errors := errors[Time := HoursMessage];
        isValid := false;
      }
    }
    AfterTimeCheck(form, allPass, fieldErrors, isValid, errors);
  }

  /** A required field holding only white space gets the required message,
      whatever its other checks would say. */
  lemma BlankRequiredFieldFails(rule: FieldRule, v: string)
    requires rule.required && forall i :: 0 <= i < |v| ==> IsJsSpace(v[i])
    ensures FirstFailure(rule, v) == Some(RequiredMessage)
  {
  }

  /** The length check counts the untrimmed value: " a" is long enough
      for the name, while "a" is not. */
  lemma NameLengthIsUntrimmed()
    ensures FirstFailure(NameRule, " a").None?
    ensures FirstFailure(NameRule, "a") == Some(MinLengthMessage(2))
  {
    assert Trim(" a") != [] by {
      assert !IsJsSpace(" a"[1]);
    }
    assert Trim("a") != [] by {
      assert !IsJsSpace("a"[0]);
    }
  }

  /** The name fails exactly when it is blank or shorter than two; a
      non-blank name shorter than two gets the minimum-length message. */
  lemma NameRuleIff(v: string)
    ensures FirstFailure(NameRule, v).Some? <==> Trim(v) == [] || |v| < 2
    ensures Trim(v) != [] && |v| < 2 ==> FirstFailure(NameRule, v) == Some(MinLengthMessage(2))
  {
  }

  /** A non-blank email passes exactly when it contains '@'. */
  lemma EmailRuleIff(v: string)
    requires Trim(v) != []
    ensures FirstFailure(EmailRule, v).None? <==> '@' in v
    ensures FirstFailure(EmailRule, v).Some? ==> FirstFailure(EmailRule, v) == Some(EmailMessage)
  {
    IncludesChar(v, '@');
  }

  /** A non-blank phone passes exactly when it has at least seven
      characters, every one a digit, '+', '(', ')', space or '-'. */
  lemma PhoneRuleIff(v: string)
    requires Trim(v) != []
    ensures FirstFailure(PhoneRule, v).None? <==> |v| >= 7 && forall i :: 0 <= i < |v| ==> IsPhoneChar(v[i])
    ensures FirstFailure(PhoneRule, v).Some? ==> FirstFailure(PhoneRule, v) == Some(FormatMessage)
  {
  }

  /** A non-blank guest count fails, with the minimum message, exactly
      when it reads as a number below 1. */
  lemma GuestsRuleIff(v: string)
    requires Trim(v) != []
    ensures FirstFailure(GuestsRule, v) == Some(MinMessage(1)) <==>
      (JsNumber(v).Some? && JsNumber(v).value < 1.0)
    ensures FirstFailure(GuestsRule, v).Some? ==> FirstFailure(GuestsRule, v) == Some(MinMessage(1))
  {
    assert MinMessage(1) != RequiredMessage by {
      assert MinMessage(1)[0] != RequiredMessage[0];
    }
  }

  /** A form that fills every field sensibly and books at opening time. */
  const SampleBooking: map<string, string> := map[
    "name" := "Ana", "email" := "ana@x.com", "phone" := "+355691234567",
    "guests" := "2", "date" := "2030-01-01", "time" := "10:00"]

  lemma SampleNamePasses()
    ensures FirstFailure(NameRule, "Ana").None?
  {
    TrimKeepsInnerString("Ana");
  }

  lemma SampleEmailPasses()
    ensures FirstFailure(EmailRule, "ana@x.com").None?
  {
    var v := "ana@x.com";
    assert '@' in v by {
      assert v[3] == '@';
    }
    assert Trim(v) != [] by {
      assert !IsJsSpace(v[0]);
    }
    EmailRuleIff(v);
  }

  lemma SamplePhonePasses()
    ensures FirstFailure(PhoneRule, "+355691234567").None?
  {
    var v := "+355691234567";
    assert forall i :: 0 <= i < |v| ==> IsPhoneChar(v[i]);
    assert Trim(v) != [] by {
      assert !IsJsSpace(v[0]);
    }
    PhoneRuleIff(v);
  }

  lemma SampleGuestsPass()
    ensures FirstFailure(GuestsRule, "2").None?
  {
    var v := "2";
    JsNumberOfNatToString(2);
    assert NatToString(2) == v;
    assert JsNumber(v) == Some(2.0);
    assert Trim(v) != [] by {
      assert !IsJsSpace(v[0]);
    }
    GuestsRuleIff(v);
  }

  /** Half a guest reads as 0.5, below the minimum of 1, and is refused. */
  lemma HalfGuestRefused()
    ensures FirstFailure(GuestsRule, "0.5") == Some(MinMessage(1))
  {
    var v := "0.5";
    assert Trim(v) != [] by {
      TrimKeepsInnerString(v);
    }
    GuestsRuleIff(v);
    NumberOfHalf();
  }

  lemma SampleDatePasses()
    ensures FirstFailure(DateRule, "2030-01-01").None?
  {
    TrimKeepsInnerString("2030-01-01");
  }

  lemma SampleTimePasses()
    ensures FirstFailure(TimeRule, "10:00").None?
  {
    TrimKeepsInnerString("10:00");
  }

  /** The sample booking is accepted. */
  lemma SampleBookingAccepted()
    ensures FormAccepted(SampleBooking)
  {
    assert FieldRules[0] == NameRule && FieldRules[1] == EmailRule && FieldRules[2] == PhoneRule;
    assert FieldRules[3] == GuestsRule && FieldRules[4] == DateRule && FieldRules[5] == TimeRule;
    assert FieldValue(SampleBooking, Name) == "Ana";
    assert FieldValue(SampleBooking, Email) == "ana@x.com";
    assert FieldValue(SampleBooking, Phone) == "+355691234567";
    assert FieldValue(SampleBooking, Guests) == "2";
    assert FieldValue(SampleBooking, Date) == "2030-01-01";
    assert FieldValue(SampleBooking, Time) == "10:00";
    SampleNamePasses();
    SampleEmailPasses();
    SamplePhonePasses();
    SampleGuestsPass();
    SampleDatePasses();
    SampleTimePasses();
    OpensAtTen();
    forall i | 0 <= i < |FieldRules|
      ensures FirstFailure(FieldRules[i], FieldValue(SampleBooking, FieldRules[i].key)).None?
    {
      assert i == 0 || i == 1 || i == 2 || i == 3 || i == 4 || i == 5;
    }
  }

  /** The same booking at 09:59 is refused. */
  lemma EarlyBookingRefused()
    ensures !FormAccepted(SampleBooking["time" := "09:59"])
  {
    RefusedBeforeTen();
  }
}
