/** The string operations the protocol is built from, with Python's meaning:
    `str.startswith`, `str.split(sep)` with a one-character separator, `sep.join(parts)`,
    `str.replace(old, new)`, `str(n)` for a non-negative integer, `str.isdigit()`, and the
    `int(...)` / `float(...)` conversions the client applies to offer fields. */
module Text {
  import opened Wrappers

  predicate StartsWith(s: string, prefix: string) {
    |prefix| <= |s| && s[..|prefix|] == prefix
  }

  /** `s.split(sep)`: the pieces between separators, never an empty list. */
  function Split(s: string, sep: char): (pieces: seq<string>)
    ensures |pieces| >= 1
    ensures forall i :: 0 <= i < |pieces| ==> sep !in pieces[i]
    decreases |s|
  {
    if s == [] then [""]
    else
      var rest := Split(s[1..], sep);
      if s[0] == sep then [""] + rest
      else [[s[0]] + rest[0]] + rest[1..]
  }

  /** `sep.join(parts)`; the join of no parts is the empty string. */
  function Join(parts: seq<string>, sep: char): string
  {
    if |parts| == 0 then ""
    else if |parts| == 1 then parts[0]
    else parts[0] + [sep] + Join(parts[1..], sep)
  }

  lemma {:induction false} SplitNoSep(a: string, sep: char)
    requires sep !in a
    ensures Split(a, sep) == [a]
    decreases |a|
  {
    if a != [] {
      assert a[0] != sep;
      SplitNoSep(a[1..], sep);
      assert [a[0]] + a[1..] == a;
    }
  }

  lemma {:induction false} SplitAtSep(a: string, b: string, sep: char)
    requires sep !in a
    ensures Split(a + [sep] + b, sep) == [a] + Split(b, sep)
    decreases |a|
  {
    var s := a + [sep] + b;
    if a == [] {
      assert s[1..] == b;
    } else {
      assert s[1..] == a[1..] + [sep] + b;
      SplitAtSep(a[1..], b, sep);
      assert [a[0]] + a[1..] == a;
    }
  }

  /** Text holding the separator splits into at least two pieces. */
  lemma {:induction false} SplitOnSep(s: string, sep: char)
    requires sep in s
    ensures |Split(s, sep)| >= 2
    decreases |s|
  {
    if s[0] != sep {
      var i :| 0 <= i < |s| && s[i] == sep;
      assert s[1..][i - 1] == sep;
      SplitOnSep(s[1..], sep);
    }
  }

  /** Splitting a join of separator-free parts gives back the parts. */
  lemma {:induction false} SplitJoin(parts: seq<string>, sep: char)
    requires |parts| >= 1
    requires forall i :: 0 <= i < |parts| ==> sep !in parts[i]
    ensures Split(Join(parts, sep), sep) == parts
    decreases |parts|
  {
    if |parts| == 1 {
      SplitNoSep(parts[0], sep);
    } else {
      SplitJoin(parts[1..], sep);
      SplitAtSep(parts[0], Join(parts[1..], sep), sep);
      assert [parts[0]] + parts[1..] == parts;
    }
  }

  /** `s.replace(pattern, replacement)`: every non-overlapping occurrence, scanning from the left. */
  function ReplaceAll(s: string, pattern: string, replacement: string): (r: string)
    requires pattern != []
    decreases |s|
  {
    if |s| < |pattern| then s
    else if s[..|pattern|] == pattern then replacement + ReplaceAll(s[|pattern|..], pattern, replacement)
    else [s[0]] + ReplaceAll(s[1..], pattern, replacement)
  }

  predicate Occurs(pattern: string, s: string) {
    exists i :: 0 <= i <= |s| && StartsWith(s[i..], pattern)
  }

  /** Text that does not contain the pattern is left alone. */
  lemma {:induction false} ReplaceAbsent(s: string, pattern: string, replacement: string)
    requires pattern != [] && !Occurs(pattern, s)
    ensures ReplaceAll(s, pattern, replacement) == s
    decreases |s|
  {
    if |s| >= |pattern| {
      assert s[0..] == s;
      assert !StartsWith(s[0..], pattern);
      forall i | 0 <= i <= |s[1..]|
        ensures !StartsWith(s[1..][i..], pattern)
      {
        assert s[1..][i..] == s[i + 1..];
      }
      ReplaceAbsent(s[1..], pattern, replacement);
    }
  }

  /** Removing a leading marker from a message that does not otherwise contain it. */
  lemma ReplaceLeading(m: string, pattern: string)
    requires pattern != [] && !Occurs(pattern, m)
    ensures ReplaceAll(pattern + m, pattern, "") == m
  {
    var s := pattern + m;
    assert s[..|pattern|] == pattern && s[|pattern|..] == m;
    ReplaceAbsent(m, pattern, "");
  }

  predicate IsDigit(c: char) {
    '0' <= c <= '9'
  }

  predicate IsDigits(s: string) {
    forall i :: 0 <= i < |s| ==> IsDigit(s[i])
  }

  /** Python's `s.isdigit()` on ASCII text: non-empty and every character a decimal digit. */
  predicate IsDecimal(s: string) {
    s != [] && IsDigits(s)
  }

  function DigitChar(d: nat): (c: char)
    requires d < 10
    ensures IsDigit(c)
  {
    ('0' as int + d) as char
  }

  /** `str(n)` for a non-negative integer. */
  function Decimal(n: nat): (r: string)
    ensures IsDecimal(r)
    decreases n
  {
    if n < 10 then [DigitChar(n)] else Decimal(n / 10) + [DigitChar(n % 10)]
  }

  /** `int(s)` on a string of decimal digits (leading zeros allowed, the empty string is 0). */
  function DigitsValue(s: string): nat
    requires IsDigits(s)
    decreases |s|
  {
    if s == [] then 0 else DigitsValue(s[..|s| - 1]) * 10 + (s[|s| - 1] as int - '0' as int)
  }

  /** `int(str(n)) == n`. */
  lemma {:induction false} DigitsValueDecimal(n: nat)
    ensures DigitsValue(Decimal(n)) == n
    decreases n
  {
    if n >= 10 {
      DigitsValueDecimal(n / 10);
      var s := Decimal(n);
      assert s[..|s| - 1] == Decimal(n / 10);
    }
  }

  /** `int(s)` as the client applies it to offer fields: an optional sign and decimal digits. */
  function ParseInt(s: string): (r: Option<int>)
    ensures r.Some? ==> s != []
  {
    if s != [] && (s[0] == '-' || s[0] == '+') then
      if IsDecimal(s[1..]) then
        Some(if s[0] == '-' then -(DigitsValue(s[1..]) as int) else DigitsValue(s[1..]) as int)
      else None
    else if IsDecimal(s) then Some(DigitsValue(s))
    else None
  }

  /** The text Python's `str(i)` gives for any integer. */
  function IntText(i: int): string {
    if i < 0 then "-" + Decimal(-i) else Decimal(i)
  }

  lemma ParseIntText(i: int)
    ensures ParseInt(IntText(i)) == Some(i)
  {
    var s := IntText(i);
    if i < 0 {
      var d := Decimal(-i);
      DigitsValueDecimal(-i);
      assert s[0] == '-' && s[1..] == d;
      assert ParseInt(s) == Some(-(DigitsValue(d) as int));
    } else {
      var d := Decimal(i);
      DigitsValueDecimal(i);
      assert s == d && IsDigit(d[0]);
      assert ParseInt(s) == Some(DigitsValue(d) as int);
    }
  }

  function Pow10(k: nat): (r: nat)
    ensures r >= 1
  {
    if k == 0 then 1 else 10 * Pow10(k - 1)
  }

  /** The unsigned part of a float literal: digits, optionally a point and more digits,
      with at least one digit in all. */
  function ParseUnsignedReal(s: string): Option<real>
  {
    var parts := Split(s, '.');
    if |parts| == 1 then
      if IsDecimal(s) then Some(DigitsValue(s) as real) else None
    else if |parts| == 2 && IsDigits(parts[0]) && IsDigits(parts[1]) && |parts[0]| + |parts[1]| >= 1 then
      Some(DigitsValue(parts[0]) as real + DigitsValue(parts[1]) as real / Pow10(|parts[1]|) as real)
    else None
  }

  /** `float(s)` as the client applies it to the ratio field: an optional sign and a decimal literal. */
  function ParseFloat(s: string): (r: Option<real>)
    ensures r.Some? ==> s != []
  {
    if s != [] && (s[0] == '-' || s[0] == '+') then
      match ParseUnsignedReal(s[1..])
      case None => None
      case Some(v) => Some(if s[0] == '-' then -v else v)
    else ParseUnsignedReal(s)
  }

  /** `float(str(n)) == n` for a whole number of percent. */
  lemma ParseFloatDecimal(n: nat)
    ensures ParseFloat(Decimal(n)) == Some(n as real)
  {
    var s := Decimal(n);
    SplitNoSep(s, '.');
    DigitsValueDecimal(n);
  }

  /** `float` of a number written with two fractional digits, as `f"{x:.2f}"` writes a
      non-negative one, is the whole part plus the hundredths. */
  lemma TwoPlaces(whole: nat, hundredths: nat)
    requires hundredths < 100
    ensures ParseFloat(Decimal(whole) + "." + [DigitChar(hundredths / 10), DigitChar(hundredths % 10)])
            == Some(whole as real + hundredths as real / 100.0)
  {
    var w := Decimal(whole);
    var f := [DigitChar(hundredths / 10), DigitChar(hundredths % 10)];
    var s := w + "." + f;
    assert '.' !in w by { assert IsDigits(w); }
    assert s == w + ['.'] + f;
    assert s[0] == w[0] && IsDigit(w[0]);
    SplitAtSep(w, f, '.');
    SplitNoSep(f, '.');
    DigitsValueDecimal(whole);
    TwoDigitsValue(hundredths);
    assert Pow10(2) == 100;
  }

  lemma TwoDigitsValue(n: nat)
    requires n < 100
    ensures DigitsValue([DigitChar(n / 10), DigitChar(n % 10)]) == n
  {
    var tens, units := DigitChar(n / 10), DigitChar(n % 10);
    assert tens as int - '0' as int == n / 10 && units as int - '0' as int == n % 10;
    assert [tens, units][..1] == [tens] && [tens][..0] == [];
    assert DigitsValue([tens]) == n / 10;
  }
}
