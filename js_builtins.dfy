/** The JavaScript built-ins that the page's rules rely on, on strings of
    Unicode scalar values: `trim`, `includes`, `toLowerCase`, `padStart`,
    `String(n)` for integers and `Number(s)` for decimal literals. */
module JsBuiltins {

  datatype Option<+T> = None | Some(value: T)

  /** The code points ECMAScript counts as WhiteSpace or LineTerminator;
      `trim` and `Number` both strip them from the ends of a string. */
  const JsSpaces: set<char> := {
    '\t', '\n', '\U{000B}', '\U{000C}', '\r', ' ', '\U{00A0}', '\U{1680}',
    '\U{2000}', '\U{2001}', '\U{2002}', '\U{2003}', '\U{2004}', '\U{2005}',
    '\U{2006}', '\U{2007}', '\U{2008}', '\U{2009}', '\U{200A}',
    '\U{2028}', '\U{2029}', '\U{202F}', '\U{205F}', '\U{3000}', '\U{FEFF}'}

  predicate IsJsSpace(c: char)
  {
    c in JsSpaces
  }

  /** `s.trimStart()`: `s` without its leading white space. */
  function TrimStart(s: string): (r: string)
    ensures |r| <= |s|
    ensures r == [] || !IsJsSpace(r[0])
    ensures r == [] <==> forall i :: 0 <= i < |s| ==> IsJsSpace(s[i])
  {
    if s != [] && IsJsSpace(s[0]) then TrimStart(s[1..]) else s
  }

  /** `s.trimEnd()`: `s` without its trailing white space. */
  function TrimEnd(s: string): (r: string)
    ensures |r| <= |s|
    ensures r == [] || !IsJsSpace(r[|r| - 1])
    ensures s != [] && !IsJsSpace(s[0]) ==> r != [] && r[0] == s[0]
    ensures (forall i :: 0 <= i < |s| ==> IsJsSpace(s[i])) ==> r == []
  {
    if s != [] && IsJsSpace(s[|s| - 1]) then TrimEnd(s[..|s| - 1]) else s
  }

  /** `s.trim()`. It is empty exactly when `s` is all white space, and
      otherwise starts and ends with a character that is not white space. */
  function Trim(s: string): (r: string)
    ensures |r| <= |s|
    ensures r == [] <==> forall i :: 0 <= i < |s| ==> IsJsSpace(s[i])
    ensures r != [] ==> !IsJsSpace(r[0]) && !IsJsSpace(r[|r| - 1])
  {
    TrimEnd(TrimStart(s))
  }

  /** Trimming leaves a string alone when neither end is white space. */
  lemma TrimKeepsInnerString(s: string)
    requires s != [] && !IsJsSpace(s[0]) && !IsJsSpace(s[|s| - 1])
    ensures Trim(s) == s
  {
    assert TrimStart(s) == s;
  }

  /** `trimStart` removes a run of white space from the front and nothing
      else. */
  lemma {:induction false} TrimStartIsSuffix(s: string)
    ensures TrimStart(s) == s[|s| - |TrimStart(s)|..]
    ensures forall k :: 0 <= k < |s| - |TrimStart(s)| ==> IsJsSpace(s[k])
  {
    if s != [] && IsJsSpace(s[0]) {
      TrimStartIsSuffix(s[1..]);
      assert s[1..][|s| - 1 - |TrimStart(s)|..] == s[|s| - |TrimStart(s)|..];
      forall k | 0 <= k < |s| - |TrimStart(s)|
        ensures IsJsSpace(s[k])
      {
        if k > 0 {
          assert s[k] == s[1..][k - 1];
        }
      }
    }
  }

  /** `trimEnd` removes a run of white space from the back and nothing
      else. */
  lemma {:induction false} TrimEndIsPrefix(s: string)
    ensures TrimEnd(s) == s[..|TrimEnd(s)|]
    ensures forall k :: |TrimEnd(s)| <= k < |s| ==> IsJsSpace(s[k])
  {
    if s != [] && IsJsSpace(s[|s| - 1]) {
      TrimEndIsPrefix(s[..|s| - 1]);
      assert s[..|s| - 1][..|TrimEnd(s)|] == s[..|TrimEnd(s)|];
      forall k | |TrimEnd(s)| <= k < |s|
        ensures IsJsSpace(s[k])
      {
        if k < |s| - 1 {
          assert s[k] == s[..|s| - 1][k];
        }
      }
    }
  }

  /** `trim` keeps a contiguous piece of `s` and removes only white space
      around it. With the ends `Trim` promises, this fixes the result. */
  lemma TrimIsSlice(s: string)
    ensures exists i, j ::
      && 0 <= i <= j <= |s|
      && Trim(s) == s[i..j]
      && (forall k :: 0 <= k < i ==> IsJsSpace(s[k]))
      && (forall k :: j <= k < |s| ==> IsJsSpace(s[k]))
  {
    var t := TrimStart(s);
    TrimStartIsSuffix(s);
    var i := |s| - |t|;
    assert t == s[i..];
    var r := TrimEnd(t);
    TrimEndIsPrefix(t);
    assert Trim(s) == r;
    var j := i + |r|;
    assert r == s[i..j] by {
      assert r == t[..|r|];
      assert s[i..][..|r|] == s[i..j];
    }
    forall k | j <= k < |s|
      ensures IsJsSpace(s[k])
    {
      assert s[k] == t[k - i];
    }
  }

  /** `t` occurs in `s` starting at index `i`. */
  ghost predicate OccursAt(s: string, t: string, i: int)
  {
    0 <= i && i + |t| <= |s| && s[i..i + |t|] == t
  }

  lemma OccursAtTail(s: string, t: string, i: int)
    requires s != [] && 0 <= i
    ensures OccursAt(s[1..], t, i) <==> OccursAt(s, t, i + 1)
  {
    if 0 <= i && i + |t| <= |s| - 1 {
      assert s[1..][i..i + |t|] == s[i + 1..i + 1 + |t|];
    }
  }

  /** `s.includes(t)`: some position of `s` starts an occurrence of `t`. */
  function Includes(s: string, t: string): (r: bool)
    ensures r <==> exists i :: OccursAt(s, t, i)
  {
    if t <= s then
      assert OccursAt(s, t, 0);
      true
    else if s == [] then
      false
    else
      var r := Includes(s[1..], t);
      assert r ==> exists i :: OccursAt(s, t, i) by {
        if r {
          var i :| OccursAt(s[1..], t, i);
          OccursAtTail(s, t, i);
        }
      }
      assert (exists i :: OccursAt(s, t, i)) ==> r by {
        if exists i :: OccursAt(s, t, i) {
          var i :| OccursAt(s, t, i);
          assert i != 0;
          OccursAtTail(s, t, i - 1);
          assert OccursAt(s[1..], t, i - 1);
        }
      }
      r
  }

  /** `s.includes(c)` for a one-character needle is membership of `c`. */
  lemma IncludesChar(s: string, c: char)
    ensures Includes(s, [c]) <==> c in s
  {
    if c in s {
      var i :| 0 <= i < |s| && s[i] == c;
      assert OccursAt(s, [c], i);
    }
    if Includes(s, [c]) {
      var i :| OccursAt(s, [c], i);
      assert s[i] == s[i..i + 1][0];
    }
  }

  /** `toLowerCase` on ASCII and Latin-1 capitals (which covers Albanian
      Ç and Ë); every other character is left as it is. */
  function LowerChar(c: char): (r: char)
    ensures 'A' <= c <= 'Z' ==> r as int == c as int + 32
    ensures !('A' <= c <= 'Z') && !('\U{00C0}' <= c <= '\U{00DE}') ==> r == c
  {
    if 'A' <= c <= 'Z' || ('\U{00C0}' <= c <= '\U{00DE}' && c != '\U{00D7}') then
      (c as int + 32) as char
    else
      c
  }

  /** `s.toLowerCase()`, character by character. */
  function ToLower(s: string): (r: string)
    ensures |r| == |s|
    ensures forall i :: 0 <= i < |s| ==> r[i] == LowerChar(s[i])
  {
    if s == [] then [] else [LowerChar(s[0])] + ToLower(s[1..])
  }

  /** Lowering twice is lowering once. */
  lemma ToLowerIdempotent(s: string)
    ensures ToLower(ToLower(s)) == ToLower(s)
  {
  }

  predicate IsDigit(c: char)
  {
    '0' <= c <= '9'
  }

  predicate AllDigits(s: string)
  {
    forall i :: 0 <= i < |s| ==> IsDigit(s[i])
  }

  function DigitChar(d: nat): (c: char)
    requires d < 10
    ensures IsDigit(c)
  {
    ('0' as int + d) as char
  }

  function DigitValue(c: char): (d: nat)
    requires IsDigit(c)
    ensures d < 10 && DigitChar(d) == c
  {
    c as int - '0' as int
  }

  /** The value of a string of decimal digits (the empty string is 0). */
  function ParseDigits(s: string): (n: nat)
    requires AllDigits(s)
  {
    if s == [] then 0 else 10 * ParseDigits(s[..|s| - 1]) + DigitValue(s[|s| - 1])
  }

  /** `String(n)` for a non-negative integer: its decimal digits, with no
      leading zero. */
  function NatToString(n: nat): (r: string)
    ensures |r| >= 1 && AllDigits(r)
    ensures r[0] == '0' ==> n == 0
    ensures n < 10 ==> |r| == 1
  {
    if n < 10 then [DigitChar(n)] else NatToString(n / 10) + [DigitChar(n % 10)]
  }

  /** Reading back the digits `String(n)` writes gives `n`. */
  lemma {:induction false} ParseNatToString(n: nat)
    ensures ParseDigits(NatToString(n)) == n
  {
    if n >= 10 {
      var s := NatToString(n);
      assert s[..|s| - 1] == NatToString(n / 10);
      ParseNatToString(n / 10);
    }
  }

  /** A leading zero does not change the value of a digit string. */
  lemma {:induction false} ParseLeadingZero(s: string)
    requires AllDigits(s)
    ensures AllDigits("0" + s) && ParseDigits("0" + s) == ParseDigits(s)
  {
    if s != [] {
      assert ("0" + s)[..|"0" + s| - 1] == "0" + s[..|s| - 1];
      ParseLeadingZero(s[..|s| - 1]);
    }
  }

  /** `String(n)` for any integer: a minus sign, then the digits of `-n`,
      when `n` is negative. A helper of `MinDate.MinDate` (the year) and
      `RuleChainValidator.MinMessage` (the rule's minimum); what the pages
      rely on is stated by `MinDate.MinDateFields` and
      `RuleChainValidator.GuestsRuleIff`. */
  function IntToString(n: int): (r: string)
    ensures r != []
  {
    if n < 0 then "-" + NatToString(-n) else NatToString(n)
  }

  /** `s.padStart(2, '0')`: zeros in front up to length two. */
  function PadStart2(s: string): (r: string)
    ensures |r| == if |s| >= 2 then |s| else 2
    ensures r[|r| - |s|..] == s
    ensures forall i :: 0 <= i < |r| - |s| ==> r[i] == '0'
  {
    if |s| >= 2 then s else if |s| == 1 then "0" + s else "00"
  }

  /** Padding a digit string yields a digit string of the same value. */
  lemma {:induction false} PadStart2Value(s: string)
    requires AllDigits(s)
    ensures AllDigits(PadStart2(s)) && ParseDigits(PadStart2(s)) == ParseDigits(s)
  {
    if |s| == 1 {
      ParseLeadingZero(s);
    } else if s == [] {
      ParseLeadingZero(s);
      ParseLeadingZero("0");
    }
  }

  /** The index of the first `c` in `s`, or `|s|` when there is none. */
  function IndexOf(s: string, c: char): (k: nat)
    ensures k <= |s|
    ensures forall i :: 0 <= i < k ==> s[i] != c
    ensures k < |s| ==> s[k] == c
  {
    if s == [] || s[0] == c then 0 else 1 + IndexOf(s[1..], c)
  }

  /** The index of the first exponent mark `e` or `E` in `s`, or `|s|`. */
  function ExponentIndex(s: string): (k: nat)
    ensures k <= |s|
    ensures forall i :: 0 <= i < k ==> s[i] != 'e' && s[i] != 'E'
    ensures k < |s| ==> s[k] == 'e' || s[k] == 'E'
  {
    if s == [] || s[0] == 'e' || s[0] == 'E' then 0 else 1 + ExponentIndex(s[1..])
  }

  /** The value of the digits after a decimal point: `"5"` is 0.5. */
  function FractionValue(d: string): (r: real)
    requires AllDigits(d)
    ensures 0.0 <= r < 1.0
  {
    if d == [] then 0.0 else (DigitValue(d[0]) as real + FractionValue(d[1..])) / 10.0
  }

  /** Digits with at most one decimal point and at least one digit:
      `12`, `1.5`, `.5` and `5.` all read. */
  function MantissaValue(m: string): Option<real>
  {
    var k := IndexOf(m, '.');
    var whole := m[..k];
    var fraction := if k < |m| then m[k + 1..] else [];
    if AllDigits(whole) && AllDigits(fraction) && (whole != [] || fraction != []) then
      Some(ParseDigits(whole) as real + FractionValue(fraction))
    else None
  }

  /** The exponent after `e`: an optional sign, then at least one digit. */
  function ExponentValue(e: string): Option<int>
  {
    if e != [] && (e[0] == '+' || e[0] == '-') then
      if e[1..] != [] && AllDigits(e[1..]) then
        Some(if e[0] == '-' then -(ParseDigits(e[1..]) as int) else ParseDigits(e[1..]))
      else None
    else if e != [] && AllDigits(e) then Some(ParseDigits(e))
    else None
  }

  /** `x * 10 ** e`. */
  function Scale(x: real, e: int): real
    decreases if e < 0 then -e else e
  {
    if e == 0 then x
    else if e > 0 then Scale(x, e - 1) * 10.0
    else Scale(x, e + 1) / 10.0
  }

  /** An unsigned decimal literal: a mantissa, then optionally `e` or `E`
      and an exponent. */
  function UnsignedValue(u: string): Option<real>
  {
    var k := ExponentIndex(u);
    var mantissa := MantissaValue(u[..k]);
    if k == |u| then mantissa
    else if mantissa.Some? && ExponentValue(u[k + 1..]).Some? then
      Some(Scale(mantissa.value, ExponentValue(u[k + 1..]).value))
    else None
  }

  /** A decimal literal with an optional sign in front. */
  function DecimalValue(t: string): Option<real>
  {
    if t != [] && t[0] == '-' then
      match UnsignedValue(t[1..])
      case Some(x) => Some(-x)
      case None => None
    else if t != [] && t[0] == '+' then UnsignedValue(t[1..])
    else UnsignedValue(t)
  }

  /** `Number(s)` on decimal text: surrounding white space is ignored,
      blank text is 0, and text that is not a decimal literal is NaN,
      written None. */
  function JsNumber(s: string): (r: Option<real>)
    ensures (forall i :: 0 <= i < |s| ==> IsJsSpace(s[i])) ==> r == Some(0.0)
  {
    var t := Trim(s);
    if t == [] then Some(0.0) else DecimalValue(t)
  }

  /** A character that is absent is found at the end. */
  lemma IndexOfAbsent(s: string, c: char)
    requires c !in s
    ensures IndexOf(s, c) == |s|
  {
  }

  /** A digit string has no exponent mark. */
  lemma {:induction false} ExponentIndexOfDigits(s: string)
    requires AllDigits(s)
    ensures ExponentIndex(s) == |s|
  {
    if s != [] {
      assert AllDigits(s[1..]) by {
        assert forall i :: 0 <= i < |s| - 1 ==> s[1..][i] == s[i + 1];
      }
      ExponentIndexOfDigits(s[1..]);
    }
  }

  /** A digit string is a mantissa without a decimal point. */
  lemma MantissaOfDigits(s: string)
    requires s != [] && AllDigits(s)
    ensures MantissaValue(s) == Some(ParseDigits(s) as real)
  {
    assert '.' !in s by {
      assert forall i :: 0 <= i < |s| ==> s[i] != '.';
    }
    IndexOfAbsent(s, '.');
    assert s[..|s|] == s;
  }

  /** A digit string is its own mantissa, without exponent. */
  lemma UnsignedValueOfDigits(s: string)
    requires s != [] && AllDigits(s)
    ensures UnsignedValue(s) == Some(ParseDigits(s) as real)
  {
    ExponentIndexOfDigits(s);
    MantissaOfDigits(s);
    assert s[..|s|] == s;
  }

  /** Text with no white space at either end is read without trimming. */
  lemma NumberOfInnerText(s: string)
    requires s != [] && !IsJsSpace(s[0]) && !IsJsSpace(s[|s| - 1])
    ensures JsNumber(s) == DecimalValue(s)
  {
    TrimKeepsInnerString(s);
  }

  /** `Number` reads a digit string as its decimal value. */
  lemma JsNumberOfDigits(s: string)
    requires s != [] && AllDigits(s)
    ensures JsNumber(s) == Some(ParseDigits(s) as real)
  {
    NumberOfInnerText(s);
    UnsignedValueOfDigits(s);
  }

  /** `Number("0.5")` is one half. */
  lemma NumberOfHalf()
    ensures JsNumber("0.5") == Some(0.5)
  {
    NumberOfInnerText("0.5");
    UnsignedOfHalf();
  }

  lemma UnsignedOfHalf()
    ensures UnsignedValue("0.5") == Some(0.5)
  {
    var u := "0.5";
    assert ExponentIndex(u) == 3;
    assert u[..3] == u;
    MantissaOfHalf();
  }

  lemma MantissaOfHalf()
    ensures MantissaValue("0.5") == Some(0.5)
  {
    var m := "0.5";
    assert IndexOf(m, '.') == 1;
    assert m[..1] == "0" && m[2..] == "5";
    assert FractionValue("5") == 0.5 by {
      assert "5"[1..] == [];
    }
  }

  /** `Number("-2e1")` is minus twenty. */
  lemma NumberOfExponent()
    ensures JsNumber("-2e1") == Some(-20.0)
  {
    NumberOfInnerText("-2e1");
    assert "-2e1"[1..] == "2e1";
    UnsignedOfTwoEOne();
  }

  lemma UnsignedOfTwoEOne()
    ensures UnsignedValue("2e1") == Some(20.0)
  {
    var u := "2e1";
    assert ExponentIndex(u) == 1;
    assert u[..1] == "2" && u[2..] == "1";
    MantissaOfDigits("2");
    assert ExponentValue("1") == Some(1);
    assert Scale(2.0, 1) == 20.0;
  }

  /** Text that is not a decimal literal is NaN. */
  lemma NumberOfWord()
    ensures JsNumber("12px") == None
  {
    NumberOfInnerText("12px");
    UnsignedOfWord();
  }

  lemma UnsignedOfWord()
    ensures UnsignedValue("12px") == None
  {
    var t := "12px";
    assert ExponentIndex(t) == 4;
    assert IndexOf(t, '.') == 4;
    assert t[..4] == t;
    assert !AllDigits(t) by {
      assert !IsDigit(t[2]);
    }
  }

  lemma JsNumberOfNatToString(n: nat)
    ensures JsNumber(NatToString(n)) == Some(n as real)
  {
    JsNumberOfDigits(NatToString(n));
    ParseNatToString(n);
  }
}
