/** `setMinDate`: today's date as the `yyyy-mm-dd` text a date input takes
    as its `min`. The clock is read by the page; here the year, the
    zero-based month and the day of the month are inputs. */
module MinDate {
  import opened JsBuiltins

  /** `${yyyy}-${String(month + 1).padStart(2, '0')}-${String(day).padStart(2, '0')}`. */
  function MinDate(year: int, monthIndex: nat, day: nat): string
  {
    IntToString(year) + "-" + PadStart2(NatToString(monthIndex + 1)) + "-" + PadStart2(NatToString(day))
  }

  /** `String(n)` writes as many digits as the number has. */
  lemma {:induction false} DigitCount(n: nat)
    ensures 10 <= n < 100 ==> |NatToString(n)| == 2
    ensures 100 <= n < 1000 ==> |NatToString(n)| == 3
    ensures 1000 <= n < 10000 ==> |NatToString(n)| == 4
  {
    if n >= 10 {
      DigitCount(n / 10);
    }
  }

  /** A two-digit field reads back as its number. */
  lemma PaddedField(n: nat)
    requires n < 100
    ensures |PadStart2(NatToString(n))| == 2
    ensures AllDigits(PadStart2(NatToString(n)))
    ensures ParseDigits(PadStart2(NatToString(n))) == n
  {
    DigitCount(n);
    PadStart2Value(NatToString(n));
    ParseNatToString(n);
  }

  /** Cutting `y-m-d` with a four-character `y` and two-character `m` and
      `d` at its dashes gives the three parts back. */
  lemma SplitDashed(y: string, m: string, d: string)
    requires |y| == 4 && |m| == 2 && |d| == 2
    ensures var r := y + "-" + m + "-" + d;
      && |r| == 10 && r[4] == '-' && r[7] == '-'
      && r[..4] == y && r[5..7] == m && r[8..] == d
  {
    var r := y + "-" + m + "-" + d;
    assert r[..4] == y;
    assert r[5..7] == m;
    assert r[8..] == d;
  }

  /** For a four-digit year and a calendar month and day, the text is ten
      characters with dashes at 4 and 7, and its three digit fields read
      back as the year, the one-based month and the day. */
  lemma MinDateFields(year: int, monthIndex: nat, day: nat)
    requires 1000 <= year <= 9999 && monthIndex < 12 && 1 <= day <= 31
    ensures var r := MinDate(year, monthIndex, day);
      && |r| == 10 && r[4] == '-' && r[7] == '-'
      && AllDigits(r[..4]) && AllDigits(r[5..7]) && AllDigits(r[8..])
      && ParseDigits(r[..4]) == year
      && ParseDigits(r[5..7]) == monthIndex + 1
      && ParseDigits(r[8..]) == day
  {
    var y, m, d := NatToString(year), PadStart2(NatToString(monthIndex + 1)), PadStart2(NatToString(day));
    assert IntToString(year) == y;
    DigitCount(year);
    ParseNatToString(year);
    PaddedField(monthIndex + 1);
    PaddedField(day);
    SplitDashed(y, m, d);
  }

  /** Distinct days give distinct texts (for four-digit years). */
  lemma MinDateInjective(y1: int, m1: nat, d1: nat, y2: int, m2: nat, d2: nat)
    requires 1000 <= y1 <= 9999 && m1 < 12 && 1 <= d1 <= 31
    requires 1000 <= y2 <= 9999 && m2 < 12 && 1 <= d2 <= 31
    requires MinDate(y1, m1, d1) == MinDate(y2, m2, d2)
    ensures y1 == y2 && m1 == m2 && d1 == d2
  {
    MinDateFields(y1, m1, d1);
    MinDateFields(y2, m2, d2);
  }
}
