/** Character and string helpers shared by the date formatting, the
    request validators and the SQL builders: decimal digits, zero
    padding, JavaScript's string order, whitespace trimming and joining. */
module Strings {

  predicate IsDigit(c: char) {
    '0' <= c <= '9'
  }

  predicate AllDigits(s: string) {
    forall i :: 0 <= i < |s| ==> IsDigit(s[i])
  }

  function DigitValue(c: char): nat
    requires IsDigit(c)
  {
    (c as int) - ('0' as int)
  }

  function DigitChar(n: nat): (c: char)
    requires n < 10
    ensures IsDigit(c) && DigitValue(c) == n
  {
    ('0' as int + n) as char
  }

  function Pow10(n: nat): (r: nat)
    ensures r >= 1
  {
    if n == 0 then 1 else 10 * Pow10(n - 1)
  }

  /** `String(n)` for a natural number: its decimal digits. */
  function NatText(n: nat): (r: string)
    ensures r != [] && AllDigits(r)
  {
    if n < 10 then [DigitChar(n)] else NatText(n / 10) + [DigitChar(n % 10)]
  }

  /** The number a non-empty run of decimal digits denotes. */
  function ParseDigits(s: string): (n: nat)
    requires AllDigits(s)
    ensures n < Pow10(|s|)
  {
    if s == [] then 0 else 10 * ParseDigits(s[..|s| - 1]) + DigitValue(s[|s| - 1])
  }

  /** `n` written in decimal with exactly `width` digits, zero-padded on the
      left (`padStart(width, '0')` for numbers that fit). */
  function Pad(n: nat, width: nat): (r: string)
    ensures |r| == width && AllDigits(r)
  {
    if width == 0 then [] else Pad(n / 10, width - 1) + [DigitChar(n % 10)]
  }

  /** Reading the decimal text of a number back gives the number. */
  lemma {:induction false} ParseNatText(n: nat)
    ensures ParseDigits(NatText(n)) == n
  {
    if n >= 10 {
      ParseNatText(n / 10);
      var r := NatText(n);
      assert r[..|r| - 1] == NatText(n / 10);
    }
  }

  /** Reading a padded number back gives the number, when it fits. */
  lemma {:induction false} ParsePad(n: nat, width: nat)
    requires n < Pow10(width)
    ensures ParseDigits(Pad(n, width)) == n
  {
    if width > 0 {
      ParsePad(n / 10, width - 1);
      var r := Pad(n, width);
      assert r[..|r| - 1] == Pad(n / 10, width - 1);
    }
  }

  /** JavaScript's `<` on two strings: code-unit-wise lexicographic order. */
  predicate LexLess(a: string, b: string)
  {
    if a == [] then b != []
    else if b == [] then false
    else if a[0] == b[0] then LexLess(a[1..], b[1..])
    else a[0] < b[0]
  }

  /** For two digit strings of the same length, JavaScript's string order is
      the order of the numbers they denote. */
  lemma {:induction false} LexLessDigits(a: string, b: string)
    requires |a| == |b| && AllDigits(a) && AllDigits(b)
    ensures LexLess(a, b) <==> ParseDigits(a) < ParseDigits(b)
    ensures ParseDigits(a) == ParseDigits(b) <==> a == b
    decreases |a|
  {
    if a != [] {
      LexLessDigits(a[1..], b[1..]);
      ParseDigitsHead(a);
      ParseDigitsHead(b);
      LeadingDigitDecides(DigitValue(a[0]), DigitValue(b[0]), ParseDigits(a[1..]), ParseDigits(b[1..]), Pow10(|a| - 1));
      if a[0] == b[0] {
        assert a == [a[0]] + a[1..] && b == [b[0]] + b[1..];
      }
    }
  }

  /** Arithmetic behind positional notation: a larger leading digit wins
      whatever follows it. */
  lemma LeadingDigitDecides(da: nat, db: nat, ra: nat, rb: nat, p: nat)
    requires ra < p && rb < p
    ensures da < db ==> da * p + ra < db * p + rb
    ensures db < da ==> db * p + rb < da * p + ra
  {
    if da < db {
      assert (da + 1) * p <= db * p;
    } else if db < da {
      assert (db + 1) * p <= da * p;
    }
  }

  /** Reading digits from the left: the leading digit weighs 10^(n-1). */
  lemma {:induction false} ParseDigitsHead(s: string)
    requires AllDigits(s) && s != []
    ensures ParseDigits(s) == DigitValue(s[0]) * Pow10(|s| - 1) + ParseDigits(s[1..])
  {
    if |s| > 1 {
      var init, tail := s[..|s| - 1], s[1..];
      ParseDigitsHead(init);
      var d0, p, r, last := DigitValue(s[0]), Pow10(|s| - 2), ParseDigits(init[1..]), DigitValue(s[|s| - 1]);
      calc {
        ParseDigits(s);
        10 * ParseDigits(init) + last;
        { assert init[0] == s[0]; }
        10 * (d0 * p + r) + last;
        { ShiftDigit(d0, p, r, last); }
        d0 * (10 * p) + (10 * r + last);
        { assert init[1..] == tail[..|tail| - 1] && tail[|tail| - 1] == s[|s| - 1];
          assert ParseDigits(tail) == 10 * r + last;
          assert Pow10(|s| - 1) == 10 * p; }
        d0 * Pow10(|s| - 1) + ParseDigits(tail);
      }
    } else {
      assert s[..0] == [];
    }
  }

  /** Moving a leading digit one place left, in plain arithmetic. */
  lemma ShiftDigit(d: nat, p: nat, r: nat, last: nat)
    ensures 10 * (d * p + r) + last == d * (10 * p) + (10 * r + last)
  {
  }

  /** The characters JavaScript's `\s` and `String.prototype.trim` treat as
      white space or line terminators. */
  predicate IsSpace(c: char) {
    c == ' ' || c == '\t' || c == '\n' || c == '\r' || c == '\U{000B}' || c == '\U{000C}'
    || c == '\U{00A0}' || c == '\U{1680}' || ('\U{2000}' <= c <= '\U{200A}')
    || c == '\U{2028}' || c == '\U{2029}' || c == '\U{202F}' || c == '\U{205F}'
    || c == '\U{3000}' || c == '\U{FEFF}'
  }

  function TrimLeft(s: string): (r: string)
    ensures |r| <= |s| && r == s[|s| - |r|..]
    ensures r != [] ==> !IsSpace(r[0])
    ensures forall i :: 0 <= i < |s| - |r| ==> IsSpace(s[i])
  {
    if s != [] && IsSpace(s[0]) then TrimLeft(s[1..]) else s
  }

  function TrimRight(s: string): (r: string)
    ensures |r| <= |s| && r == s[..|r|]
    ensures r != [] ==> !IsSpace(r[|r| - 1])
    ensures forall i :: |r| <= i < |s| ==> IsSpace(s[i])
  {
    if s != [] && IsSpace(s[|s| - 1]) then TrimRight(s[..|s| - 1]) else s
  }

  /** `s.trim()`: white space removed from both ends. */
  function Trim(s: string): (r: string)
    ensures |r| <= |s|
  {
    TrimRight(TrimLeft(s))
  }

  /** `parts.join(sep)`. */
  function Join(parts: seq<string>, sep: string): string
  {
    if parts == [] then []
    else if |parts| == 1 then parts[0]
    else parts[0] + sep + Join(parts[1..], sep)
  }
}
