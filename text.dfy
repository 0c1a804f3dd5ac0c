/** String helpers that stand in for the JavaScript built-ins the core
    relies on: `String.prototype.split` with a one-character separator,
    `Number(...)` applied to a decimal digit string, and
    `Number.prototype.toString()` of a non-negative integer. */
module Text {

  /** The separator-joined form of a non-empty list of pieces
      (`Array.prototype.join`). */
  function Join(pieces: seq<string>, sep: char): string
    requires |pieces| >= 1
  {
    if |pieces| == 1 then pieces[0] else pieces[0] + [sep] + Join(pieces[1..], sep)
  }

  /** Number of occurrences of `c` in `s`. */
  function Count(s: string, c: char): nat {
    if s == [] then 0 else (if s[0] == c then 1 else 0) + Count(s[1..], c)
  }

  /** `s.split(sep)`: the maximal separator-free pieces of `s`, in order.
      The empty string splits into one empty piece. */
  function Split(s: string, sep: char): (r: seq<string>)
    ensures |r| == Count(s, sep) + 1
    ensures forall k :: 0 <= k < |r| ==> sep !in r[k]
    ensures Join(r, sep) == s
  {
    if s == [] then [""]
    else
      var rest := Split(s[1..], sep);
      if s[0] == sep then [""] + rest
      else [[s[0]] + rest[0]] + rest[1..]
  }

  /** Splitting undoes joining, for pieces that do not contain the separator. */
  lemma {:induction false} SplitJoin(pieces: seq<string>, sep: char)
    requires |pieces| >= 1
    requires forall k :: 0 <= k < |pieces| ==> sep !in pieces[k]
    ensures Split(Join(pieces, sep), sep) == pieces
  {
    if |pieces| == 1 {
      SplitFree(pieces[0], sep);
    } else {
      SplitJoin(pieces[1..], sep);
      SplitPrefix(pieces[0], sep, Join(pieces[1..], sep));
    }
  }

  /** A separator-free string splits into itself alone. */
  lemma {:induction false} SplitFree(s: string, sep: char)
    requires sep !in s
    ensures Split(s, sep) == [s]
  {
    if s != [] {
      SplitFree(s[1..], sep);
    }
  }

  /** Splitting `a + [sep] + b` with a separator-free `a` yields `a`
      followed by the pieces of `b`. */
  lemma {:induction false} SplitPrefix(a: string, sep: char, b: string)
    requires sep !in a
    ensures Split(a + [sep] + b, sep) == [a] + Split(b, sep)
  {
    if a == [] {
      assert a + [sep] + b == [sep] + b;
      SplitSeparator(sep, b);
    } else {
      SplitPrefix(a[1..], sep, b);
      assert a + [sep] + b == [a[0]] + (a[1..] + [sep] + b);
      SplitOther(a[0], a[1..] + [sep] + b, sep);
      assert [a[0]] + a[1..] == a;
    }
  }

  /** A leading separator starts an empty piece. */
  lemma SplitSeparator(sep: char, s: string)
    ensures Split([sep] + s, sep) == [""] + Split(s, sep)
  {
    assert ([sep] + s)[1..] == s;
  }

  /** Any other leading character joins the first piece. */
  lemma SplitOther(c: char, s: string, sep: char)
    requires c != sep
    ensures Split([c] + s, sep) == [[c] + Split(s, sep)[0]] + Split(s, sep)[1..]
  {
    assert ([c] + s)[1..] == s;
  }

  predicate IsDigit(c: char) {
    '0' <= c <= '9'
  }

  predicate IsDigits(s: string) {
    forall k :: 0 <= k < |s| ==> IsDigit(s[k])
  }

  function DigitValue(c: char): nat
    requires IsDigit(c)
  {
    c as nat - '0' as nat
  }

  function DigitChar(d: nat): (c: char)
    requires d < 10
    ensures IsDigit(c) && DigitValue(c) == d
  {
    ('0' as nat + d) as char
  }

  /** `Number(s)` for a decimal digit string; `Number("")` is 0. */
  function DigitsValue(s: string): nat
    requires IsDigits(s)
  {
    if s == [] then 0 else DigitsValue(s[..|s| - 1]) * 10 + DigitValue(s[|s| - 1])
  }

  /** `n.toString()`: the canonical decimal numeral of `n`, read back by
      `DigitsValue`, with no leading zero except for 0 itself. */
  function NatToString(n: nat): (r: string)
    ensures |r| >= 1 && IsDigits(r)
    ensures DigitsValue(r) == n
    ensures r[0] == '0' ==> n == 0
  {
    if n < 10 then [DigitChar(n)]
    else
      var init := NatToString(n / 10);
      var r := init + [DigitChar(n % 10)];
      assert r[..|r| - 1] == init;
      r
  }

  /** Two canonical numerals with the same value are the same string,
      so `NatToString` is the only digit form `toString` can give. */
  lemma {:induction false} NatToStringOfDigits(s: string)
    requires |s| >= 1 && IsDigits(s) && (s[0] == '0' ==> |s| == 1)
    ensures NatToString(DigitsValue(s)) == s
  {
    var init := s[..|s| - 1];
    if |s| == 1 {
      assert DigitsValue(s) == DigitValue(s[0]) by { assert init == []; }
      assert [DigitChar(DigitValue(s[0]))] == [s[0]];
    } else {
      assert IsDigits(init);
      assert DigitsValue(init) >= 1 by { LeadingDigitPositive(init); }
      NatToStringOfDigits(init);
      var n := DigitsValue(s);
      assert n / 10 == DigitsValue(init) && n % 10 == DigitValue(s[|s| - 1]);
      assert DigitChar(n % 10) == s[|s| - 1];
      assert NatToString(n) == NatToString(n / 10) + [DigitChar(n % 10)];
      assert init + [s[|s| - 1]] == s;
    }
  }

  /** A numeral that does not start with '0' has a positive value. */
  lemma {:induction false} LeadingDigitPositive(s: string)
    requires |s| >= 1 && IsDigits(s) && s[0] != '0'
    ensures DigitsValue(s) >= 1
  {
    if |s| > 1 {
      var init := s[..|s| - 1];
      assert IsDigits(init) && init[0] == s[0];
      LeadingDigitPositive(init);
    }
  }
}
