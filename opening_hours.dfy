/** The opening-hours rule both reservation validators apply to the time
    field: `"HH:MM"` is read as minutes since midnight and must lie in
    10:00 to 23:00, both ends included. */
module OpeningHours {
  import opened JsBuiltins

  const OpenMinutes: int := 10 * 60
  const CloseMinutes: int := 23 * 60

  /** The first piece of `s.split(':')`, and the rest of `s` after that
      colon (None when `s` has no colon). */
  function SplitAtColon(s: string): (r: (string, Option<string>))
    ensures ':' !in r.0
    ensures r.1.None? ==> r.0 == s
    ensures r.1.Some? ==> s == r.0 + ":" + r.1.value
  {
    var k := IndexOf(s, ':');
    if k == |s| then (s, None) else (s[..k], Some(s[k + 1..]))
  }

  /** Splitting `a + ":" + b` at its first colon, when `a` has none, gives
      back `a` and `b`. */
  lemma SplitAtColonOfJoin(a: string, b: string)
    requires ':' !in a
    ensures SplitAtColon(a + ":" + b) == (a, Some(b))
  {
    var s := a + ":" + b;
    var k := IndexOf(s, ':');
    assert s[|a|] == ':';
    assert forall i :: 0 <= i < |a| ==> s[i] == a[i];
    assert s[..k] == a && s[k + 1..] == b;
  }

  /** A string with no colon is a single piece. */
  lemma SplitAtColonWithoutColon(s: string)
    requires ':' !in s
    ensures SplitAtColon(s) == (s, None)
  {
  }

  /** `hh * 60 + mm`, where NaN (None) in either operand makes the sum
      NaN. */
  function Combine(hh: Option<real>, mm: Option<real>): (r: Option<real>)
    ensures r.Some? <==> hh.Some? && mm.Some?
    ensures r.Some? ==> r.value == hh.value * 60.0 + mm.value
  {
    if hh.Some? && mm.Some? then Some(hh.value * 60.0 + mm.value) else None
  }

  lemma CombineOfNumbers(hh: Option<real>, mm: Option<real>, h: real, m: real)
    requires hh == Some(h) && mm == Some(m)
    ensures Combine(hh, mm) == Some(h * 60.0 + m)
  {
  }

  /** `const [hh, mm] = value.split(':').map(Number); hh * 60 + mm`.
      A missing second piece makes the sum NaN, written None. Pieces after
      the second are ignored. */
  function MinutesSinceMidnight(value: string): Option<real>
  {
    var pieces := SplitAtColon(value);
    if pieces.1.None? then None
    else Combine(JsNumber(pieces.0), JsNumber(SplitAtColon(pieces.1.value).0))
  }

  /** The time check: it runs only on a non-empty value and fails when the
      minutes fall before opening or after closing; NaN fails neither
      comparison, so an unreadable time passes. */
  predicate OutsideOpeningHours(value: string)
  {
    && value != []
    && match MinutesSinceMidnight(value)
       case Some(m) => m < OpenMinutes as real || m > CloseMinutes as real
       case None => false
  }

  /** The check as both validators write it, on the minutes already read
      from a non-empty value. */
  lemma OutsideByMinutes(value: string, minutes: Option<real>)
    requires value != [] && minutes == MinutesSinceMidnight(value)
    ensures OutsideOpeningHours(value) <==>
      minutes.Some? && (minutes.value < OpenMinutes as real || minutes.value > CloseMinutes as real)
  {
  }

  /** The text a time input holds for hour `h` and minute `m`. */
  function ClockText(h: nat, m: nat): string
  {
    PadStart2(NatToString(h)) + ":" + PadStart2(NatToString(m))
  }

  lemma PaddedNumber(n: nat)
    ensures JsNumber(PadStart2(NatToString(n))) == Some(n as real)
    ensures ':' !in PadStart2(NatToString(n))
  {
    var s := NatToString(n);
    PadStart2Value(s);
    ParseNatToString(n);
    JsNumberOfDigits(PadStart2(s));
    assert ':' !in PadStart2(s) by {
      assert AllDigits(PadStart2(s));
    }
  }

  /** A value whose first two pieces are `a` and `b` reads as `a` hours
      and `b` minutes. */
  lemma MinutesOfPieces(value: string, a: string, b: string)
    requires SplitAtColon(value) == (a, Some(b)) && SplitAtColon(b).0 == b
    ensures MinutesSinceMidnight(value) == Combine(JsNumber(a), JsNumber(b))
  {
  }

  /** Two colon-free numbers joined by a colon read as hours and minutes. */
  lemma MinutesOfJoin(hh: string, mm: string, h: real, m: real)
    requires ':' !in hh && ':' !in mm
    requires JsNumber(hh) == Some(h) && JsNumber(mm) == Some(m)
    ensures MinutesSinceMidnight(hh + ":" + mm) == Some(h * 60.0 + m)
  {
    SplitAtColonOfJoin(hh, mm);
    SplitAtColonWithoutColon(mm);
    MinutesOfPieces(hh + ":" + mm, hh, mm);
    CombineOfNumbers(JsNumber(hh), JsNumber(mm), h, m);
  }

  /** Reading a clock text back gives its minutes since midnight. */
  lemma MinutesOfClockText(h: nat, m: nat)
    ensures MinutesSinceMidnight(ClockText(h, m)) == Some((h * 60 + m) as real)
  {
    PaddedMinutes(h, m);
    WholeMinutes(MinutesSinceMidnight(ClockText(h, m)), h, m);
  }

  lemma PaddedMinutes(h: nat, m: nat)
    ensures MinutesSinceMidnight(ClockText(h, m)) == Some((h as real) * 60.0 + m as real)
  {
    var hh, mm := PadStart2(NatToString(h)), PadStart2(NatToString(m));
    PaddedNumber(h);
    PaddedNumber(m);
    MinutesOfJoin(hh, mm, h as real, m as real);
  }

  /** Whole hours and minutes give a whole number of minutes. */
  lemma WholeMinutes(x: Option<real>, h: nat, m: nat)
    requires x == Some((h as real) * 60.0 + m as real)
    ensures x == Some((h * 60 + m) as real)
  {
  }

  /** A clock time fails the window exactly when it is before 10:00 or
      after 23:00. */
  lemma OutsideOpeningHoursIff(h: nat, m: nat)
    ensures OutsideOpeningHours(ClockText(h, m)) <==> h * 60 + m < 600 || h * 60 + m > 1380
  {
    MinutesOfClockText(h, m);
  }

  /** A time given literally as "HH:MM" text, for the examples below. */
  lemma ClockLiteral(h: nat, m: nat, text: string)
    requires text == ClockText(h, m)
    ensures OutsideOpeningHours(text) <==> h * 60 + m < OpenMinutes || h * 60 + m > CloseMinutes
  {
    OutsideOpeningHoursIff(h, m);
  }

  /** The opening minute is bookable. */
  lemma OpensAtTen()
    ensures !OutsideOpeningHours("10:00")
  {
    TextOfTen();
    ClockLiteral(10, 0, "10:00");
  }

  /** The closing minute is bookable. */
  lemma ClosesAtTwentyThree()
    ensures !OutsideOpeningHours("23:00")
  {
    TextOfTwentyThree();
    ClockLiteral(23, 0, "23:00");
  }

  /** One minute before opening is refused. */
  lemma RefusedBeforeTen()
    ensures OutsideOpeningHours("09:59")
  {
    TextOfNineFiftyNine();
    ClockLiteral(9, 59, "09:59");
  }

  /** One minute after closing is refused. */
  lemma RefusedAfterTwentyThree()
    ensures OutsideOpeningHours("23:01")
  {
    TextOfTwentyThreeOhOne();
    ClockLiteral(23, 1, "23:01");
  }

  lemma TextOfTen()
    ensures ClockText(10, 0) == "10:00"
  {
  }

  lemma TextOfTwentyThree()
    ensures ClockText(23, 0) == "23:00"
  {
  }

  lemma TextOfNineFiftyNine()
    ensures ClockText(9, 59) == "09:59"
  {
  }

  lemma TextOfTwentyThreeOhOne()
    ensures ClockText(23, 1) == "23:01"
  {
  }

  /** A time without a colon has no minutes piece, reads as NaN and never
      triggers the opening-hours message ("abc" and "10" both pass). */
  lemma NoColonIsNeverOutside(value: string)
    requires ':' !in value
    ensures MinutesSinceMidnight(value).None?
    ensures !OutsideOpeningHours(value)
  {
    SplitAtColonWithoutColon(value);
  }

  /** A blank time (empty or white space only) never triggers the
      opening-hours message. */
  lemma BlankTimeIsNeverOutside(value: string)
    requires forall i :: 0 <= i < |value| ==> IsJsSpace(value[i])
    ensures !OutsideOpeningHours(value)
  {
    assert ':' !in value by {
      assert forall i :: 0 <= i < |value| ==> value[i] != ':';
    }
    SplitAtColonWithoutColon(value);
  }
}
