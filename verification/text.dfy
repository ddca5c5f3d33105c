/**
 * The string operations the wire protocol relies on: splitting a payload on a
 * one-character separator (with the semantics of Python's str.split), joining
 * pieces back, and decimal rendering and parsing of natural numbers.
 */
module Text {
  import opened Wrappers

  /** Glues the pieces together with `sep` between consecutive pieces. */
  function Join(parts: seq<string>, sep: char): string
  {
    if |parts| == 0 then []
    else if |parts| == 1 then parts[0]
    else parts[0] + [sep] + Join(parts[1..], sep)
  }

  /**
   * The pieces of `s` between occurrences of `sep`: there is always at least
   * one piece, adjacent separators give empty pieces, no piece contains the
   * separator, and joining the pieces gives back `s`.
   */
  function Split(s: string, sep: char): (parts: seq<string>)
    ensures |parts| >= 1
    ensures forall i :: 0 <= i < |parts| ==> sep !in parts[i]
    ensures Join(parts, sep) == s
    decreases |s|
  {
    if s == [] then [[]]
    else
      var rest := Split(s[1..], sep);
      if s[0] == sep then
        assert ([[]] + rest)[1..] == rest;
        [[]] + rest
      else
        var parts := [[s[0]] + rest[0]] + rest[1..];
        assert |rest| > 1 ==> parts[1..] == rest[1..] && Join(rest, sep) == rest[0] + [sep] + Join(rest[1..], sep);
        assert s == [s[0]] + s[1..];
        parts
  }

  /** Splitting a piece free of the separator in front of `rest` extends the first piece of `rest`. */
  lemma {:induction false} SplitPrefix(a: string, rest: string, sep: char)
    requires sep !in a
    ensures Split(a + rest, sep) == [a + Split(rest, sep)[0]] + Split(rest, sep)[1..]
    decreases |a|
  {
    if a != [] {
      var r := Split(rest, sep);
      assert (a + rest)[0] == a[0] && a[0] != sep;
      assert (a + rest)[1..] == a[1..] + rest;
      SplitPrefix(a[1..], rest, sep);
      var x := Split(a[1..] + rest, sep);
      assert Split(a + rest, sep) == [[a[0]] + x[0]] + x[1..];
      assert x[0] == a[1..] + r[0] && x[1..] == r[1..];
      assert [a[0]] + (a[1..] + r[0]) == a + r[0];
    } else {
      var r := Split(rest, sep);
      assert a + rest == rest;
      assert a + r[0] == r[0];
      assert [r[0]] + r[1..] == r;
    }
  }

  /** A leading separator closes an empty first piece. */
  lemma SplitLeadingSeparator(tail: string, sep: char)
    ensures Split([sep] + tail, sep) == [[]] + Split(tail, sep)
  {
    assert ([sep] + tail)[1..] == tail;
  }

  /** Joining one more piece in front, when the rest already splits back, still splits back. */
  lemma JoinFrontSplits(head: string, rest: seq<string>, sep: char)
    requires sep !in head && |rest| >= 1
    requires Split(Join(rest, sep), sep) == rest
    ensures Split(Join([head] + rest, sep), sep) == [head] + rest
  {
    var tail := Join(rest, sep);
    assert ([head] + rest)[1..] == rest;
    assert Join([head] + rest, sep) == head + ([sep] + tail);
    SplitLeadingSeparator(tail, sep);
    SplitPrefix(head, [sep] + tail, sep);
    assert head + [] == head;
  }

  /** Split undoes Join when no piece contains the separator. */
  lemma {:induction false} SplitJoin(parts: seq<string>, sep: char)
    requires |parts| >= 1
    requires forall i :: 0 <= i < |parts| ==> sep !in parts[i]
    ensures Split(Join(parts, sep), sep) == parts
    decreases |parts|
  {
    if |parts| == 1 {
      SplitPrefix(parts[0], [], sep);
      assert parts[0] + [] == parts[0];
    } else {
      SplitJoin(parts[1..], sep);
      JoinFrontSplits(parts[0], parts[1..], sep);
      assert [parts[0]] + parts[1..] == parts;
    }
  }

  predicate IsDigit(c: char)
  {
    '0' <= c <= '9'
  }

  predicate AllDigits(s: string)
  {
    forall i :: 0 <= i < |s| ==> IsDigit(s[i])
  }

  function DigitChar(d: nat): (c: char)
    requires d < 10
    ensures IsDigit(c) && c as int - '0' as int == d
  {
    ('0' as int + d) as char
  }

  function DigitValue(c: char): (d: nat)
    requires IsDigit(c)
    ensures d < 10 && DigitChar(d) == c
  {
    c as int - '0' as int
  }

  /** The value of a string of decimal digits, most significant digit first. */
  function DigitsValue(s: string): nat
    requires AllDigits(s)
  {
    if s == [] then 0
    else 10 * DigitsValue(s[..|s| - 1]) + DigitValue(s[|s| - 1])
  }

  /** Decimal rendering of a natural number, as Python's str() gives it; parsing it gives the number back. */
  function ShowNat(n: nat): (s: string)
    ensures |s| >= 1 && AllDigits(s)
    ensures ParseNat(s) == Some(n)
    // no leading zero, except for zero itself
    ensures |s| == 1 || s[0] != '0'
  {
    if n < 10 then
      assert [DigitChar(n)][..0] == [];
      assert DigitsValue([DigitChar(n)]) == DigitValue(DigitChar(n));
      [DigitChar(n)]
    else
      var s := ShowNat(n / 10) + [DigitChar(n % 10)];
      assert s[..|s| - 1] == ShowNat(n / 10);
      s
  }

  /** Decimal parsing: a non-empty string of digits (leading zeros allowed), else nothing. */
  function ParseNat(s: string): (r: Option<nat>)
    ensures r.Some? <==> |s| >= 1 && AllDigits(s)
  {
    if |s| >= 1 && AllDigits(s) then Some(DigitsValue(s)) else None
  }

  /** A string of digits whose first digit is not zero has a positive value. */
  lemma {:induction false} LeadingDigitPositive(s: string)
    requires |s| >= 1 && AllDigits(s) && s[0] != '0'
    ensures DigitsValue(s) >= 1
    decreases |s|
  {
    if |s| > 1 {
      LeadingDigitPositive(s[..|s| - 1]);
    }
  }

  /**
   * The converse round trip: a digit string without leading zeros is the
   * rendering of the number it parses to.
   */
  lemma {:induction false} ShowParse(s: string, n: nat)
    requires ParseNat(s) == Some(n)
    requires |s| == 1 || s[0] != '0'
    ensures s == ShowNat(n)
    decreases |s|
  {
    var init := s[..|s| - 1];
    var last := s[|s| - 1];
    if |s| == 1 {
      assert init == [];
      assert n == DigitsValue(s) == DigitValue(last);
      assert ShowNat(n) == [DigitChar(n)];
      assert s == [last];
    } else {
      assert init[0] == s[0];
      LeadingDigitPositive(init);
      ShowParse(init, DigitsValue(init));
      assert n / 10 == DigitsValue(init) && n % 10 == DigitValue(last);
      assert s == init + [last];
    }
  }

  /** Leading zeros are accepted and do not change the value, as with Python's int(). */
  lemma {:induction false} LeadingZeroIgnored(s: string)
    requires |s| >= 1 && AllDigits(s)
    ensures ParseNat(['0'] + s) == ParseNat(s)
    decreases |s|
  {
    var t := ['0'] + s;
    assert AllDigits(t) by {
      forall i | 0 <= i < |t| ensures IsDigit(t[i]) {
        if i > 0 { assert t[i] == s[i - 1]; }
      }
    }
    var init := s[..|s| - 1];
    assert t[..|t| - 1] == ['0'] + init;
    assert t[|t| - 1] == s[|s| - 1];
    if |s| == 1 {
      assert init == [];
      assert ['0'][..0] == [];
      assert DigitsValue(['0']) == 0;
    } else {
      LeadingZeroIgnored(init);
    }
  }
}
