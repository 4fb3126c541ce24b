/** The express-validator checks the request middlewares declare, as
    predicates over request values with validator.js semantics: presence,
    string type, measured length, integer and numeric text, and the
    `parseInt` behind the `toInt()` sanitizer. */
module Validators {
  import opened Common
  import opened Strings

  /** The message of a failed check that has no `withMessage`. */
  const DefaultMessage := "Invalid value"

  /** What a validation stage decides: on to the next handler, or 400 with
      the messages of the failed checks, in the order they were declared. */
  datatype Verdict = Proceed | Rejected(messages: seq<string>)

  /** One check as run: whether it held, and the message it reports. */
  type Check = (bool, string)

  /** `validationResult(req).array().map(e => e.msg)`. */
  function Failures(checks: seq<Check>): (r: seq<string>)
    ensures |r| <= |checks|
    ensures r == [] <==> forall i :: 0 <= i < |checks| ==> checks[i].0
    ensures forall m :: m in r ==> exists i :: 0 <= i < |checks| && !checks[i].0 && checks[i].1 == m
  {
    if checks == [] then []
    else (if checks[0].0 then [] else [checks[0].1]) + Failures(checks[1..])
  }

  /** The validation stage that ends each chain list: 400 on any error. */
  function Judge(checks: seq<Check>): (v: Verdict)
    ensures v == Proceed <==> forall i :: 0 <= i < |checks| ==> checks[i].0
    ensures v.Rejected? ==> 1 <= |v.messages| <= |checks|
  {
    var fs := Failures(checks);
    if fs == [] then Proceed else Rejected(fs)
  }

  /** `exists()`: only a missing value fails. */
  predicate Exists(f: Field) {
    !f.Absent?
  }

  /** `isString()`. */
  predicate IsStringValue(f: Field) {
    f.Str?
  }

  predicate IsPresentationSelector(c: char) {
    c == '\U{FE0E}' || c == '\U{FE0F}'
  }

  /** How many text/emoji presentation selectors `s` holds. */
  function PresentationSelectors(s: string): (n: nat)
    ensures n <= |s|
  {
    if s == [] then 0
    else PresentationSelectors(s[..|s| - 1]) + (if IsPresentationSelector(s[|s| - 1]) then 1 else 0)
  }

  /** The length `isLength` compares: code points (a surrogate pair is one),
      less the presentation selectors. */
  function MeasuredLength(s: string): (n: nat)
    ensures n <= |s|
  {
    |s| - PresentationSelectors(s)
  }

  /** Text without presentation selectors is measured by its plain length. */
  lemma {:induction false} MeasuredPlain(s: string)
    requires forall i :: 0 <= i < |s| ==> !IsPresentationSelector(s[i])
    ensures MeasuredLength(s) == |s|
  {
    if s != [] {
      MeasuredPlain(s[..|s| - 1]);
    }
  }

  /** `isLength({ min, max })` on the string form of the value. */
  predicate LengthWithin(f: Field, min: nat, max: nat) {
    min <= MeasuredLength(FieldText(f)) <= max
  }

  /** One chain `exists().isString().isLength({ min, max })`, with the
      default message on each check. */
  function TextChecks(f: Field, min: nat, max: nat): (r: seq<Check>)
    ensures |r| == 3 && forall i :: 0 <= i < 3 ==> r[i].1 == DefaultMessage
    ensures r[0].0 && r[1].0 && r[2].0 <==> f.Str? && min <= MeasuredLength(f.s) <= max
  {
    [(Exists(f), DefaultMessage), (IsStringValue(f), DefaultMessage), (LengthWithin(f, min, max), DefaultMessage)]
  }

  /** The messages one chain reports: "Invalid value" for a missing value,
      for a non-string, and for a string form of the wrong length. */
  function FieldFailures(f: Field, min: nat, max: nat): (r: seq<string>)
    ensures |r| <= 3 && forall i :: 0 <= i < |r| ==> r[i] == DefaultMessage
  {
    (if f.Absent? then [DefaultMessage] else [])
    + (if !f.Str? then [DefaultMessage] else [])
    + (if !LengthWithin(f, min, max) then [DefaultMessage] else [])
  }

  lemma TextFailures(f: Field, min: nat, max: nat)
    ensures Failures(TextChecks(f, min, max)) == FieldFailures(f, min, max)
  {
    var t := TextChecks(f, min, max);
    assert t[1..][1..] == [t[2]] && t[1..][0] == t[1];
    assert Failures([t[2]]) == if t[2].0 then [] else [t[2].1];
  }

  lemma {:induction false} FailuresConcat(c: seq<Check>, d: seq<Check>)
    ensures Failures(c + d) == Failures(c) + Failures(d)
  {
    if c != [] {
      assert (c + d)[1..] == c[1..] + d;
      FailuresConcat(c[1..], d);
    } else {
      assert c + d == d;
    }
  }

  /** `isInt()` (leading zeroes allowed, so `^[-+]?[0-9]+$`) and the
      integer the text denotes. */
  function IntText(s: string): (r: Option<int>)
    ensures r.Some? <==> (s != [] && AllDigits(s))
                         || (|s| > 1 && (s[0] == '+' || s[0] == '-') && AllDigits(s[1..]))
  {
    if s != [] && (s[0] == '+' || s[0] == '-') then
      if |s| > 1 && AllDigits(s[1..]) then
        Some(if s[0] == '-' then -(ParseDigits(s[1..]) as int) else ParseDigits(s[1..]))
      else None
    else if s != [] && AllDigits(s) then Some(ParseDigits(s))
    else None
  }

  /** The decimal text of an integer, with or without a sign, is accepted
      and denotes that integer. */
  lemma IntTextOfNumber(n: nat)
    ensures IntText(NatText(n)) == Some(n)
    ensures IntText("+" + NatText(n)) == Some(n)
    ensures IntText("-" + NatText(n)) == Some(-(n as int))
  {
    ParseNatText(n);
    var t := NatText(n);
    assert ("+" + t)[1..] == t && ("-" + t)[1..] == t;
    assert !IsDigit('+') && !IsDigit('-');
    assert t[0] != '+' && t[0] != '-';
  }

  /** The run of digits at the front of `s`. */
  function DigitPrefix(s: string): (r: string)
    ensures AllDigits(r) && |r| <= |s| && r == s[..|r|]
    ensures |r| < |s| ==> !IsDigit(s[|r|])
  {
    if s != [] && IsDigit(s[0]) then [s[0]] + DigitPrefix(s[1..]) else []
  }

  /** `toInt()`, that is `parseInt(s, 10)`: leading white space skipped, an
      optional sign, then the longest run of digits; None stands for NaN,
      when there is no digit. */
  function ParseIntPrefix(s: string): (r: Option<int>)
    ensures r.None? <==> DigitPrefix(SignStripped(TrimLeft(s))) == []
  {
    var t := TrimLeft(s);
    var d := DigitPrefix(SignStripped(t));
    if d == [] then None
    else if t[0] == '-' then Some(-(ParseDigits(d) as int))
    else Some(ParseDigits(d))
  }

  /** `s` without one leading sign. */
  function SignStripped(t: string): (r: string)
    ensures |r| <= |t|
  {
    if t != [] && (t[0] == '+' || t[0] == '-') then t[1..] else t
  }

  /** Text that `isInt()` accepts converts to the same integer under
      `toInt()`. */
  lemma ParseIntAgrees(s: string)
    requires IntText(s).Some?
    ensures ParseIntPrefix(s) == IntText(s)
  {
    assert !IsSpace(s[0]);
    assert TrimLeft(s) == s;
    var rest := SignStripped(s);
    assert AllDigits(rest);
    var d := DigitPrefix(rest);
    assert d == rest;
  }

  /** `toInt()` stops at the first character after the digits: "12abc" is 12. */
  lemma ParseIntStopsAtNonDigit(n: nat, tail: string)
    requires tail != [] ==> !IsDigit(tail[0])
    ensures ParseIntPrefix(NatText(n) + tail) == Some(n)
  {
    var t := NatText(n);
    var s := t + tail;
    ParseNatText(n);
    assert s[0] == t[0] && IsDigit(t[0]);
    assert !IsSpace(s[0]) && s[0] != '+' && s[0] != '-';
    assert TrimLeft(s) == s;
    assert SignStripped(s) == s;
    DigitPrefixOf(t, tail);
    assert DigitPrefix(SignStripped(TrimLeft(s))) == t;
  }

  lemma {:induction false} DigitPrefixOf(t: string, tail: string)
    requires AllDigits(t) && (tail != [] ==> !IsDigit(tail[0]))
    ensures DigitPrefix(t + tail) == t
  {
    if t != [] {
      assert (t + tail)[1..] == t[1..] + tail;
      DigitPrefixOf(t[1..], tail);
      assert [t[0]] + t[1..] == t;
    } else {
      assert t + tail == tail;
    }
  }

  /** The part of `^[+-]?([0-9]*[.])?[0-9]+$` after the sign. */
  predicate NumericBody(r: string) {
    (r != [] && AllDigits(r))
    || exists k :: 0 <= k < |r| - 1 && r[k] == '.' && AllDigits(r[..k]) && AllDigits(r[k + 1..])
  }

  /** `isNumeric()`. */
  predicate IsNumeric(s: string) {
    NumericBody(SignStripped(s))
  }

  /** Numeric text holds no presentation selector, so its measured length
      is its length. */
  lemma NumericMeasured(s: string)
    requires IsNumeric(s)
    ensures MeasuredLength(s) == |s|
  {
    var r := SignStripped(s);
    forall i | 0 <= i < |s| ensures !IsPresentationSelector(s[i]) {
      if s != [] && (s[0] == '+' || s[0] == '-') {
        if i > 0 {
          assert s[i] == r[i - 1];
          NumericChar(r, i - 1);
        }
      } else {
        assert s[i] == r[i];
        NumericChar(r, i);
      }
    }
    MeasuredPlain(s);
  }

  /** Every character of a numeric body is a digit or the point. */
  lemma NumericChar(r: string, i: nat)
    requires NumericBody(r) && i < |r|
    ensures IsDigit(r[i]) || r[i] == '.'
  {
    if !(r != [] && AllDigits(r)) {
      var k :| 0 <= k < |r| - 1 && r[k] == '.' && AllDigits(r[..k]) && AllDigits(r[k + 1..]);
      if i < k {
        assert r[i] == r[..k][i];
      } else if i > k {
        assert r[i] == r[k + 1..][i - k - 1];
      }
    }
  }
}
