/** The Python string primitives that the version comparator is built from:
    `str.partition`, `str.split` (with its inverse, `str.join`), the regular
    expression `^(\d+)` restricted to ASCII digits, `int()` applied to a digit
    run, and the ordering `<` on `str`, which compares code points
    lexicographically. */
module PyStr {

  /** `s.partition(sep)`: the text before the first `sep`, the separator
      itself (empty when `sep` does not occur) and everything after it. */
  function Partition(s: string, sep: char): (r: (string, string, string))
    ensures sep !in r.0
    ensures sep in s ==> r.1 == [sep] && s == r.0 + [sep] + r.2
    ensures sep !in s ==> r == (s, "", "")
  {
    if s == [] then ("", "", "")
    else if s[0] == sep then ("", [sep], s[1..])
    else
      var (before, found, after) := Partition(s[1..], sep);
      assert s == [s[0]] + s[1..];
      ([s[0]] + before, found, after)
  }

  /** Partition cuts at the FIRST separator: text after it may hold more. */
  lemma {:induction false} PartitionAtFirst(before: string, sep: char, after: string)
    requires sep !in before
    ensures Partition(before + [sep] + after, sep) == (before, [sep], after)
  {
    if before != [] {
      assert (before + [sep] + after)[1..] == before[1..] + [sep] + after;
      PartitionAtFirst(before[1..], sep, after);
      assert before == [before[0]] + before[1..];
    } else {
      assert (before + [sep] + after)[1..] == after;
    }
  }

  /** `sep.join(parts)`; Python's `split` never yields an empty list, so
      neither does anything passed here. */
  function Join(parts: seq<string>, sep: char): string
    requires |parts| >= 1
  {
    if |parts| == 1 then parts[0] else parts[0] + [sep] + Join(parts[1..], sep)
  }

  /** The parts of `[c] + w` given the parts of `w`: a separator opens a
      new empty first part, any other character joins the first part. */
  function SplitCons(c: char, parts: seq<string>, sep: char): seq<string>
    requires |parts| >= 1
  {
    if c == sep then [""] + parts else [[c] + parts[0]] + parts[1..]
  }

  /** `s.split(sep)`: at least one part, no part holds `sep`, and joining
      the parts with `sep` gives back `s`. */
  function Split(s: string, sep: char): (parts: seq<string>)
    ensures |parts| >= 1
    ensures forall i :: 0 <= i < |parts| ==> sep !in parts[i]
    ensures Join(parts, sep) == s
  {
    if s == [] then [""]
    else
      var rest := Split(s[1..], sep);
      assert s == [s[0]] + s[1..];
      if s[0] == sep then
        assert SplitCons(s[0], rest, sep)[1..] == rest;
        SplitCons(s[0], rest, sep)
      else
        assert SplitCons(s[0], rest, sep)[1..] == rest[1..];
        SplitCons(s[0], rest, sep)
  }

  lemma {:induction false} SplitNoSeparator(w: string, sep: char)
    requires sep !in w
    ensures Split(w, sep) == [w]
  {
    if w != [] {
      SplitNoSeparator(w[1..], sep);
      assert w == [w[0]] + w[1..];
    }
  }

  /** Adding a character in front only touches the first part, so it
      commutes with appending further parts. */
  lemma SplitConsAppend(c: char, head: seq<string>, tail: seq<string>, sep: char)
    requires |head| >= 1
    ensures SplitCons(c, head + tail, sep) == SplitCons(c, head, sep) + tail
  {
    if c != sep {
      assert (head + tail)[0] == head[0];
      assert (head + tail)[1..] == head[1..] + tail;
    }
  }

  /** Splitting distributes over a separator: the parts of `u + sep + t`
      are the parts of `u` followed by the parts of `t`. */
  lemma {:induction false} SplitAppend(u: string, sep: char, t: string)
    ensures Split(u + [sep] + t, sep) == Split(u, sep) + Split(t, sep)
  {
    var s := u + [sep] + t;
    if u == [] {
      assert s[0] == sep && s[1..] == t;
    } else {
      assert s[0] == u[0] && s[1..] == u[1..] + [sep] + t;
      SplitAppend(u[1..], sep, t);
      SplitConsAppend(u[0], Split(u[1..], sep), Split(t, sep), sep);
    }
  }

  /** `split` undoes `join` when no part holds the separator. */
  lemma {:induction false} SplitJoin(parts: seq<string>, sep: char)
    requires |parts| >= 1
    requires forall i :: 0 <= i < |parts| ==> sep !in parts[i]
    ensures Split(Join(parts, sep), sep) == parts
  {
    if |parts| == 1 {
      SplitNoSeparator(parts[0], sep);
    } else {
      SplitJoin(parts[1..], sep);
      SplitAppend(parts[0], sep, Join(parts[1..], sep));
      SplitNoSeparator(parts[0], sep);
      assert parts == [parts[0]] + parts[1..];
    }
  }

  /** `\d`, restricted to the ASCII digits. */
  predicate IsDigit(c: char) {
    '0' <= c <= '9'
  }

  predicate AllDigits(s: string) {
    forall i :: 0 <= i < |s| ==> IsDigit(s[i])
  }

  /** The text `^(\d+)` captures, or "" where `re.match` finds no match:
      the longest prefix of `s` made of digits. */
  function LeadingDigits(s: string): (r: string)
    ensures r <= s
    ensures AllDigits(r)
    ensures |r| == |s| || !IsDigit(s[|r|])
  {
    if s != [] && IsDigit(s[0]) then [s[0]] + LeadingDigits(s[1..]) else ""
  }

  /** The digit run of a digit string followed by a non-digit is that digit string. */
  lemma {:induction false} LeadingDigitsOfRun(d: string, rest: string)
    requires AllDigits(d)
    requires rest == [] || !IsDigit(rest[0])
    ensures LeadingDigits(d + rest) == d
  {
    if d != [] {
      assert (d + rest)[1..] == d[1..] + rest;
      LeadingDigitsOfRun(d[1..], rest);
    }
  }

  function DigitValue(c: char): (v: nat)
    requires IsDigit(c)
    ensures v < 10
  {
    (c as int) - ('0' as int)
  }

  function DigitChar(v: nat): (c: char)
    requires v < 10
    ensures IsDigit(c) && DigitValue(c) == v
  {
    (('0' as int) + v) as char
  }

  /** `int(d)` for a string of decimal digits, read most significant first. */
  function DigitsToNat(d: string): nat
    requires AllDigits(d)
  {
    if d == [] then 0 else 10 * DigitsToNat(d[..|d| - 1]) + DigitValue(d[|d| - 1])
  }

  /** `str(n)`: the decimal numeral of `n`, with no leading zeros. */
  function Decimal(n: nat): (s: string)
    ensures AllDigits(s) && |s| >= 1
    ensures |s| > 1 ==> s[0] != '0'
  {
    if n < 10 then [DigitChar(n)] else Decimal(n / 10) + [DigitChar(n % 10)]
  }

  /** `int(str(n)) == n`. */
  lemma {:induction false} DigitsToNatOfDecimal(n: nat)
    ensures DigitsToNat(Decimal(n)) == n
  {
    var s := Decimal(n);
    if n >= 10 {
      assert s[..|s| - 1] == Decimal(n / 10);
      DigitsToNatOfDecimal(n / 10);
    }
  }

  /** Leading zeros do not change the value, so distinct digit runs such as
      "01" and "1" can have equal values. */
  lemma {:induction false} LeadingZeroIgnored(d: string)
    requires AllDigits(d)
    ensures DigitsToNat("0" + d) == DigitsToNat(d)
  {
    if d != [] {
      var z := "0" + d;
      assert z[..|z| - 1] == "0" + d[..|d| - 1];
      LeadingZeroIgnored(d[..|d| - 1]);
    }
  }

  /** Python's `a < b` on `str`: lexicographic by code point, where a proper
      prefix sorts first. */
  predicate StrLt(a: string, b: string) {
    if b == [] then false
    else if a == [] then true
    else if a[0] != b[0] then a[0] < b[0]
    else StrLt(a[1..], b[1..])
  }

  /** At the first position where `a` and `b` differ, `a` has the smaller
      character. */
  ghost predicate FirstDifferenceLess(a: string, b: string) {
    exists k :: 0 <= k < |a| && k < |b| && a[..k] == b[..k] && a[k] < b[k]
  }

  /** One direction of `StrLtIsLexicographic`. */
  lemma {:induction false} StrLtToLexicographic(a: string, b: string)
    requires StrLt(a, b)
    ensures a < b || FirstDifferenceLess(a, b)
  {
    if a == [] {
      assert a < b;
    } else if a[0] != b[0] {
      assert a[..0] == b[..0];
    } else {
      StrLtToLexicographic(a[1..], b[1..]);
      assert a == [a[0]] + a[1..];
      assert b == [b[0]] + b[1..];
      if !(a[1..] < b[1..]) {
        var k :| 0 <= k < |a[1..]| && k < |b[1..]| && a[1..][..k] == b[1..][..k] && a[1..][k] < b[1..][k];
        assert a[..k + 1] == [a[0]] + a[1..][..k];
        assert b[..k + 1] == [b[0]] + b[1..][..k];
      }
    }
  }

  /** The other direction of `StrLtIsLexicographic`. */
  lemma {:induction false} LexicographicToStrLt(a: string, b: string)
    requires a < b || FirstDifferenceLess(a, b)
    ensures StrLt(a, b)
  {
    if a < b {
      if a != [] {
        assert a[1..] < b[1..];
        LexicographicToStrLt(a[1..], b[1..]);
      }
    } else {
      var k :| 0 <= k < |a| && k < |b| && a[..k] == b[..k] && a[k] < b[k];
      if k > 0 {
        assert a[0] == a[..k][0] == b[..k][0] == b[0];
        assert a[1..][..k - 1] == a[..k][1..] == b[..k][1..] == b[1..][..k - 1];
        assert a[1..][k - 1] < b[1..][k - 1];
        LexicographicToStrLt(a[1..], b[1..]);
      }
    }
  }

  /** StrLt agrees with the textbook definition of lexicographic order:
      either `a` is a proper prefix of `b`, or at the first position where
      they differ `a` has the smaller character. */
  lemma StrLtIsLexicographic(a: string, b: string)
    ensures StrLt(a, b) <==>
      (a < b || exists k :: 0 <= k < |a| && k < |b| && a[..k] == b[..k] && a[k] < b[k])
  {
    if StrLt(a, b) {
      StrLtToLexicographic(a, b);
    }
    if a < b || FirstDifferenceLess(a, b) {
      LexicographicToStrLt(a, b);
    }
  }

  lemma {:induction false} StrLtAsymmetric(a: string, b: string)
    ensures StrLt(a, b) ==> !StrLt(b, a)
  {
    if a != [] && b != [] && a[0] == b[0] {
      StrLtAsymmetric(a[1..], b[1..]);
    }
  }

  /** Two different strings are always ordered one way or the other. */
  lemma {:induction false} StrLtConnected(a: string, b: string)
    requires a != b
    ensures StrLt(a, b) || StrLt(b, a)
  {
    if a != [] && b != [] && a[0] == b[0] {
      assert a == [a[0]] + a[1..];
      assert b == [b[0]] + b[1..];
      StrLtConnected(a[1..], b[1..]);
    }
  }

  lemma {:induction false} StrLtTransitive(a: string, b: string, c: string)
    requires StrLt(a, b) && StrLt(b, c)
    ensures StrLt(a, c)
  {
    if a != [] && a[0] == b[0] && b[0] == c[0] {
      StrLtTransitive(a[1..], b[1..], c[1..]);
    }
  }
}
