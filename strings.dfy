/**
 * The parts of Go's `strings` and `fmt` packages that the service relies on:
 * `strings.Split` with a one-character separator, `strings.Join`, and the
 * decimal rendering `%d` of an integer. Strings are sequences of characters;
 * a Go `byte` is a number below 256.
 */
module Strings {

  newtype byte = x: int | 0 <= x < 256

  /** Index of the first `c` in `s`, or `|s|` when `s` has none. */
  function IndexOf(s: string, c: char): (r: nat)
    ensures r <= |s|
    ensures forall i :: 0 <= i < r ==> s[i] != c
    ensures r < |s| ==> s[r] == c
  {
    if |s| == 0 then 0
    else if s[0] == c then 0
    else 1 + IndexOf(s[1..], c)
  }

  lemma {:induction false} IndexOfAbsent(s: string, c: char)
    ensures IndexOf(s, c) == |s| <==> c !in s
  {
    var r := IndexOf(s, c);
    if r < |s| {
      assert s[r] == c;
    } else {
      forall i | 0 <= i < |s| ensures s[i] != c { }
    }
  }

  /** `strings.Split(s, string(sep))`: the text between separators; never empty, `[s]` when `sep` does not occur. */
  function Split(s: string, sep: char): (parts: seq<string>)
    ensures |parts| >= 1
    ensures forall i :: 0 <= i < |parts| ==> sep !in parts[i]
    ensures |parts| == 1 <==> sep !in s
    decreases |s|
  {
    IndexOfAbsent(s, sep);
    var i := IndexOf(s, sep);
    if i == |s| then [s]
    else
      assert forall j :: 0 <= j < i ==> s[..i][j] != sep;
      [s[..i]] + Split(s[i + 1..], sep)
  }

  /** The first part of a split is the text before the first separator. */
  lemma SplitHead(s: string, sep: char)
    ensures Split(s, sep)[0] == s[..IndexOf(s, sep)]
  {
    IndexOfAbsent(s, sep);
  }

  /** The second part of a split is the text after the first separator, up to the next one. */
  lemma SplitSecond(s: string, sep: char)
    requires IndexOf(s, sep) < |s|
    ensures |Split(s, sep)| >= 2
    ensures Split(s, sep)[1] == s[IndexOf(s, sep) + 1..][..IndexOf(s[IndexOf(s, sep) + 1..], sep)]
  {
    IndexOfAbsent(s, sep);
    SplitHead(s[IndexOf(s, sep) + 1..], sep);
  }

  /**
   * The first two parts of a split with at least two parts: the text up to
   * the first separator, then the text up to the next separator or the end.
   */
  lemma SplitFirstTwo(s: string, sep: char)
    requires |Split(s, sep)| >= 2
    ensures var a, b := Split(s, sep)[0], Split(s, sep)[1];
            |a| + 1 + |b| <= |s| && s[..|a|] == a && s[|a|] == sep && s[|a| + 1..|a| + 1 + |b|] == b &&
            (|a| + 1 + |b| == |s| || s[|a| + 1 + |b|] == sep)
  {
    IndexOfAbsent(s, sep);
    var i := IndexOf(s, sep);
    assert i < |s|;
    var j := IndexOf(s[i + 1..], sep);
    SplitHead(s, sep);
    SplitSecond(s, sep);
    SlicesAfter(s, i, j);
    assert Split(s, sep)[0] == s[..i] && |s[..i]| == i;
    assert Split(s, sep)[1] == s[i + 1..i + 1 + j];
  }

  lemma SlicesAfter(s: string, i: nat, j: nat)
    requires i < |s| && i + 1 + j <= |s|
    ensures s[i + 1..][..j] == s[i + 1..i + 1 + j]
    ensures i + 1 + j < |s| ==> s[i + 1..][j] == s[i + 1 + j]
  {
  }

  /** `strings.Join(parts, sep)`: no parts give `""`, one part is itself, otherwise the separator goes between neighbours. */
  function Join(parts: seq<string>, sep: string): (r: string)
    ensures |parts| == 0 ==> r == ""
    ensures |parts| == 1 ==> r == parts[0]
  {
    if |parts| == 0 then ""
    else if |parts| == 1 then parts[0]
    else parts[0] + sep + Join(parts[1..], sep)
  }

  /** Joining parts free of the separator and splitting again gives the parts back. */
  lemma {:induction false} SplitJoin(parts: seq<string>, sep: char)
    requires |parts| >= 1
    requires forall i :: 0 <= i < |parts| ==> sep !in parts[i]
    ensures Split(Join(parts, [sep]), sep) == parts
  {
    if |parts| == 1 {
      IndexOfAbsent(parts[0], sep);
    } else {
      SplitJoin(parts[1..], sep);
      SplitJoinCons(parts[0], parts[1..], sep);
      assert parts == [parts[0]] + parts[1..];
    }
  }

  /** One step of `SplitJoin`: a separator-free head in front of parts that survive the round trip. */
  lemma SplitJoinCons(head: string, rest: seq<string>, sep: char)
    requires sep !in head && |rest| >= 1
    requires Split(Join(rest, [sep]), sep) == rest
    ensures Split(Join([head] + rest, [sep]), sep) == [head] + rest
  {
    var tail := Join(rest, [sep]);
    JoinCons(head, rest, [sep]);
    FirstSeparator(head, sep, tail);
    SplitStep(head + [sep] + tail, sep);
  }

  /** A text holding the separator splits into the text before it and the split of the rest. */
  lemma SplitStep(s: string, sep: char)
    requires IndexOf(s, sep) < |s|
    ensures Split(s, sep) == [s[..IndexOf(s, sep)]] + Split(s[IndexOf(s, sep) + 1..], sep)
  {
  }

  /** In `a + [sep] + b` with `a` free of `sep`, the first separator sits right after `a`. */
  lemma FirstSeparator(a: string, sep: char, b: string)
    requires sep !in a
    ensures IndexOf(a + [sep] + b, sep) == |a|
    ensures (a + [sep] + b)[..|a|] == a && (a + [sep] + b)[|a| + 1..] == b
  {
    IndexOfAbsent(a, sep);
    IndexOfPrefix(a, [sep] + b, sep);
    assert IndexOf([sep] + b, sep) == 0;
    assert a + [sep] + b == a + ([sep] + b);
  }

  /** Two separator-free prefixes of `t` that each end at a separator (or, for `x`, at the end) are the same. */
  lemma SeparatorFreePrefix(t: string, sep: char, x: string, y: string)
    requires sep !in x && sep !in y
    requires |x| <= |t| && t[..|x|] == x && (|x| == |t| || t[|x|] == sep)
    requires |y| < |t| && t[..|y|] == y && t[|y|] == sep
    ensures x == y
  {
    assert forall i :: 0 <= i < |x| ==> t[i] == x[i] != sep;
    assert forall i :: 0 <= i < |y| ==> t[i] == y[i] != sep;
  }

  lemma {:induction false} IndexOfPrefix(a: string, b: string, c: char)
    requires c !in a
    ensures IndexOf(a + b, c) == |a| + IndexOf(b, c)
  {
    if |a| > 0 {
      assert (a + b)[1..] == a[1..] + b;
      IndexOfPrefix(a[1..], b, c);
    } else {
      assert a + b == b;
    }
  }

  /** Splitting and joining with the same separator gives the text back. */
  lemma {:induction false} JoinSplit(s: string, sep: char)
    ensures Join(Split(s, sep), [sep]) == s
    decreases |s|
  {
    IndexOfAbsent(s, sep);
    var i := IndexOf(s, sep);
    if i < |s| {
      var tail := s[i + 1..];
      var rest := Split(tail, sep);
      assert Split(s, sep) == [s[..i]] + rest;
      JoinSplit(tail, sep);
      JoinCons(s[..i], rest, [sep]);
      Recompose(s, i);
    } else {
      assert Split(s, sep) == [s];
    }
  }

  lemma Recompose(s: string, i: nat)
    requires i < |s|
    ensures s[..i] + [s[i]] + s[i + 1..] == s
  {
    assert s[i..] == [s[i]] + s[i + 1..];
    assert s == s[..i] + s[i..];
  }

  lemma JoinPair(a: string, b: string, sep: string)
    ensures Join([a, b], sep) == a + sep + b
  {
    assert [a, b][1..] == [b];
  }

  /** Joining a head before at least one more part puts the separator right after the head. */
  lemma JoinCons(head: string, rest: seq<string>, sep: string)
    requires |rest| >= 1
    ensures Join([head] + rest, sep) == head + sep + Join(rest, sep)
  {
    assert ([head] + rest)[1..] == rest;
  }

  /** A join of non-empty parts is empty exactly when there are no parts. */
  lemma JoinEmpty(parts: seq<string>, sep: string)
    requires forall i :: 0 <= i < |parts| ==> parts[i] != ""
    ensures Join(parts, sep) == "" <==> |parts| == 0
  {
    if |parts| > 1 {
      assert |Join(parts, sep)| >= |parts[0]|;
    }
  }

  /** The decimal digit character for `d`. */
  function DigitChar(d: nat): (c: char)
    requires d < 10
    ensures '0' <= c <= '9'
  {
    ('0' as int + d) as char
  }

  predicate IsDecimal(s: string)
  {
    forall i :: 0 <= i < |s| ==> '0' <= s[i] <= '9'
  }

  /** The value of a string of decimal digits (the empty string reads as 0). */
  function DecimalValue(s: string): nat
    requires IsDecimal(s)
  {
    if s == [] then 0
    else 10 * DecimalValue(s[..|s| - 1]) + (s[|s| - 1] as int - '0' as int)
  }

  /** A decimal numeral as `%d` spells it: at least one digit, and no leading zero except in `0` itself. */
  predicate IsCanonicalDecimal(s: string)
  {
    IsDecimal(s) && s != "" && (s[0] == '0' ==> s == "0")
  }

  /** `%d` of a natural number: its digits, most significant first. */
  function NatToDecimal(n: nat): (s: string)
    ensures |s| >= 1 && IsDecimal(s)
    ensures s[0] == '0' ==> n == 0 && s == "0"
    decreases n
  {
    if n < 10 then [DigitChar(n)]
    else NatToDecimal(n / 10) + [DigitChar(n % 10)]
  }

  lemma {:induction false} DecimalRoundTrip(n: nat)
    ensures DecimalValue(NatToDecimal(n)) == n
    decreases n
  {
    var s := NatToDecimal(n);
    if n >= 10 {
      DecimalRoundTrip(n / 10);
      assert s[..|s| - 1] == NatToDecimal(n / 10);
    }
  }

  /** A canonical numeral starting with a non-zero digit has a positive value. */
  lemma {:induction false} LeadingDigitPositive(s: string)
    requires IsDecimal(s) && s != "" && s[0] != '0'
    ensures DecimalValue(s) >= 1
    decreases |s|
  {
    if |s| > 1 {
      LeadingDigitPositive(s[..|s| - 1]);
    }
  }

  /** A canonical numeral is the `%d` spelling of its value: there is exactly one spelling per number. */
  lemma {:induction false} CanonicalDecimal(s: string)
    requires IsCanonicalDecimal(s)
    ensures NatToDecimal(DecimalValue(s)) == s
    decreases |s|
  {
    if |s| > 1 {
      var init := s[..|s| - 1];
      assert init[0] == s[0];
      LeadingDigitPositive(init);
      CanonicalDecimal(init);
      var v := DecimalValue(s);
      var d := s[|s| - 1] as int - '0' as int;
      assert v == 10 * DecimalValue(init) + d;
      assert v / 10 == DecimalValue(init) && v % 10 == d;
      assert s == init + [s[|s| - 1]];
    }
  }

  /** `%d` of an integer: a minus sign for negative values, then the digits of the magnitude, with no leading zero. */
  function IntToDecimal(i: int): (s: string)
    ensures i >= 0 ==> IsCanonicalDecimal(s) && DecimalValue(s) == i
    ensures i < 0 ==> |s| >= 2 && s[0] == '-' && IsCanonicalDecimal(s[1..]) && s[1] != '0' && DecimalValue(s[1..]) == -i
  {
    if i < 0 then
      DecimalRoundTrip(-i);
      var d := NatToDecimal(-i);
      assert ("-" + d)[1..] == d;
      "-" + d
    else
      DecimalRoundTrip(i);
      NatToDecimal(i)
  }
}
