/** The Python string operations the tracker relies on: `str.strip()`,
    `str.lower()`, `str(n)` for a non-negative integer and `int(s)`.
    Only the ASCII part of Python's Unicode tables is modelled. */
module Text {
  import opened Wrappers

  /** The ASCII characters `str.strip()` removes: space, tab, line feed,
      vertical tab, form feed, carriage return and the four separators
      U+001C..U+001F. */
  predicate IsSpace(c: char) {
    c == ' ' || ('\t' <= c <= '\r') || ('\U{1C}' <= c <= '\U{1F}')
  }

  predicate IsDigit(c: char) {
    '0' <= c <= '9'
  }

  predicate AllDigits(s: string) {
    forall i :: 0 <= i < |s| ==> IsDigit(s[i])
  }

  /** Leading whitespace removed: what is left is a suffix of `s` that does
      not start with whitespace, and everything dropped was whitespace. */
  function TrimStart(s: string): (r: string)
    ensures |r| <= |s| && r == s[|s| - |r|..]
    ensures r == [] || !IsSpace(r[0])
    ensures forall i :: 0 <= i < |s| - |r| ==> IsSpace(s[i])
  {
    if s != [] && IsSpace(s[0]) then TrimStart(s[1..]) else s
  }

  /** Trailing whitespace removed: what is left is a prefix of `s` that does
      not end with whitespace, and everything dropped was whitespace. */
  function TrimEnd(s: string): (r: string)
    ensures |r| <= |s| && r == s[..|r|]
    ensures r == [] || !IsSpace(r[|r| - 1])
    ensures forall i :: |r| <= i < |s| ==> IsSpace(s[i])
  {
    if s != [] && IsSpace(s[|s| - 1]) then TrimEnd(s[..|s| - 1]) else s
  }

  /** `str.strip()`: the result is the part of `s` left once the
      whitespace around it is removed, and it neither starts nor ends with
      whitespace. */
  function Strip(s: string): (r: string)
    ensures r == [] || (!IsSpace(r[0]) && !IsSpace(r[|r| - 1]))
    ensures exists i :: StrippedAt(s, r, i)
  {
    var t := TrimStart(s);
    var r := TrimEnd(t);
    var i := |s| - |t|;
    assert r == s[i..i + |r|];
    assert StrippedAt(s, r, i);
    r
  }

  /** `r` is `s[i..i + |r|]` and everything around it in `s` is whitespace. */
  ghost predicate StrippedAt(s: string, r: string, i: int) {
    && 0 <= i <= |s| - |r| && r == s[i..i + |r|]
    && (forall k :: 0 <= k < i ==> IsSpace(s[k]))
    && (forall k :: i + |r| <= k < |s| ==> IsSpace(s[k]))
  }

  /** Whitespace before a string is dropped by `TrimStart`. */
  lemma {:induction false} TrimStartSkipsSpaces(a: string, t: string)
    requires forall k :: 0 <= k < |a| ==> IsSpace(a[k])
    ensures TrimStart(a + t) == TrimStart(t)
  {
    if a != [] {
      assert (a + t)[1..] == a[1..] + t;
      TrimStartSkipsSpaces(a[1..], t);
    } else {
      assert a + t == t;
    }
  }

  /** Whitespace after a string is dropped by `TrimEnd`. */
  lemma {:induction false} TrimEndSkipsSpaces(t: string, b: string)
    requires forall k :: 0 <= k < |b| ==> IsSpace(b[k])
    ensures TrimEnd(t + b) == TrimEnd(t)
  {
    if b != [] {
      assert (t + b)[..|t + b| - 1] == t + b[..|b| - 1];
      TrimEndSkipsSpaces(t, b[..|b| - 1]);
    } else {
      assert t + b == t;
    }
  }

  /** Any whitespace around a string without surrounding whitespace is
      stripped, and nothing else. */
  lemma StripPadding(a: string, t: string, b: string)
    requires forall k :: 0 <= k < |a| ==> IsSpace(a[k])
    requires forall k :: 0 <= k < |b| ==> IsSpace(b[k])
    requires t == [] || (!IsSpace(t[0]) && !IsSpace(t[|t| - 1]))
    ensures Strip(a + t + b) == t
  {
    assert a + t + b == a + (t + b);
    TrimStartSkipsSpaces(a, t + b);
    if t == [] {
      assert t + b == b;
      TrimStartSkipsSpaces(b, []);
      assert b + [] == b;
    } else {
      assert TrimStart(t + b) == t + b;
    }
    TrimEndSkipsSpaces(t, b);
  }

  /** Stripping twice is stripping once. */
  lemma StripIdempotent(s: string)
    ensures Strip(Strip(s)) == Strip(s)
  {
  }

  /** A string already free of surrounding whitespace is left as it is. */
  lemma StripKeepsTrimmed(s: string)
    requires s == [] || (!IsSpace(s[0]) && !IsSpace(s[|s| - 1]))
    ensures Strip(s) == s
  {
  }

  function LowerChar(c: char): char {
    if 'A' <= c <= 'Z' then (c as int + 32) as char else c
  }

  /** `str.lower()`, over ASCII letters. */
  function Lower(s: string): (r: string)
    ensures |r| == |s|
    ensures forall i :: 0 <= i < |s| ==> r[i] == LowerChar(s[i])
  {
    if s == [] then [] else [LowerChar(s[0])] + Lower(s[1..])
  }

  /** Lower-casing twice is lower-casing once. */
  lemma LowerIdempotent(s: string)
    ensures Lower(Lower(s)) == Lower(s)
  {
  }

  function DigitChar(d: nat): (c: char)
    requires d < 10
    ensures IsDigit(c)
  {
    ('0' as int + d) as char
  }

  function DigitValue(c: char): (d: nat)
    requires IsDigit(c)
    ensures d < 10 && DigitChar(d) == c
  {
    c as int - '0' as int
  }

  /** `str(n)` for a non-negative integer: decimal digits, no sign, and no
      leading zero unless the number is zero. */
  function NatToString(n: nat): (r: string)
    ensures |r| >= 1 && AllDigits(r)
    ensures r[0] == '0' ==> n == 0
  {
    if n < 10 then [DigitChar(n)] else NatToString(n / 10) + [DigitChar(n % 10)]
  }

  /** The number a run of decimal digits denotes (0 for no digits). */
  function DigitsValue(s: string): nat
    requires AllDigits(s)
  {
    if s == [] then 0 else DigitsValue(s[..|s| - 1]) * 10 + DigitValue(s[|s| - 1])
  }

  /** Reading back the decimal digits of `n` gives `n`. */
  lemma {:induction false} DigitsValueOfNatToString(n: nat)
    ensures DigitsValue(NatToString(n)) == n
  {
    var r := NatToString(n);
    if n < 10 {
      assert r[..|r| - 1] == [];
    } else {
      DigitsValueOfNatToString(n / 10);
      assert r[..|r| - 1] == NatToString(n / 10);
    }
  }

  /** The texts `int` accepts once the surrounding whitespace is gone: one
      or more digits, or a `+` or `-` sign followed by one or more digits. */
  predicate IntLiteral(t: string) {
    (t != [] && AllDigits(t)) || (|t| >= 2 && (t[0] == '-' || t[0] == '+') && AllDigits(t[1..]))
  }

  /** `int(s)` for a string of ASCII characters without `_`: surrounding
      whitespace is ignored, an optional `+` or `-` sign is followed by at
      least one digit; any other text raises `ValueError`, modelled as
      `None`. */
  function ParseInt(s: string): (r: Option<int>)
    ensures r.Some? <==> IntLiteral(Strip(s))
    ensures Strip(s) != [] && AllDigits(Strip(s)) ==> r == Some(DigitsValue(Strip(s)))
    ensures |Strip(s)| >= 2 && Strip(s)[0] == '-' && AllDigits(Strip(s)[1..])
      ==> r == Some(-(DigitsValue(Strip(s)[1..]) as int))
    ensures |Strip(s)| >= 2 && Strip(s)[0] == '+' && AllDigits(Strip(s)[1..])
      ==> r == Some(DigitsValue(Strip(s)[1..]))
  {
    ParseStripped(Strip(s))
  }

  /** A text with no digit at all is never a number. */
  lemma ParseIntNeedsDigit(s: string)
    requires forall k :: 0 <= k < |s| ==> !IsDigit(s[k])
    ensures ParseInt(s).None?
  {
    var t := Strip(s);
    var i :| StrippedAt(s, t, i);
    assert forall k :: 0 <= k < |t| ==> t[k] == s[i + k];
    if t != [] {
      assert !IsDigit(t[|t| - 1]);
    }
  }

  /** `int` on a text that has no surrounding whitespace. */
  function ParseStripped(t: string): (r: Option<int>)
    ensures r.Some? <==> IntLiteral(t)
    ensures t != [] && AllDigits(t) ==> r == Some(DigitsValue(t))
    ensures |t| >= 2 && t[0] == '-' && AllDigits(t[1..]) ==> r == Some(-(DigitsValue(t[1..]) as int))
    ensures |t| >= 2 && t[0] == '+' && AllDigits(t[1..]) ==> r == Some(DigitsValue(t[1..]))
  {
    if t == [] then None
    else if t[0] == '-' || t[0] == '+' then
      var digits := t[1..];
      if digits != [] && AllDigits(digits) then
        var v: int := DigitsValue(digits);
        Some(if t[0] == '-' then -v else v)
      else None
    else if AllDigits(t) then Some(DigitsValue(t))
    else None
  }

  /** `int(str(n)) == n` for every non-negative `n`. */
  lemma ParseIntOfNatToString(n: nat)
    ensures ParseInt(NatToString(n)) == Some(n)
  {
    var s := NatToString(n);
    assert !IsSpace(s[0]) && !IsSpace(s[|s| - 1]);
    StripKeepsTrimmed(s);
    assert s[0] != '-' && s[0] != '+';
    DigitsValueOfNatToString(n);
  }
}
