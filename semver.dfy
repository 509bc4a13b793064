/** The `Version` class: a version string split once at its first `-` into
    a `main` part and a pre-release part `pre`, Python's `==` on the pair,
    the hand-written `<`, and the operators `functools.total_ordering`
    derives from `<` and `==`. */
module Semver {
  import opened Wrappers
  import opened PyStr

  datatype Version = Version(main: string, pre: string)

  /** `Version(raw)`: `main` is the text before the first `-` and `pre` is
      everything after it, further dashes included; without a dash `pre` is "". */
  function Parse(raw: string): (v: Version)
    ensures '-' !in v.main
    ensures '-' in raw ==> raw == v.main + "-" + v.pre
    ensures '-' !in raw ==> v == Version(raw, "")
  {
    var (main, _, pre) := Partition(raw, '-');
    Version(main, pre)
  }

  /** `__eq__`: both strings are equal. */
  predicate Eq(a: Version, b: Version) {
    a.main == b.main && a.pre == b.pre
  }

  /** `!=`, Python's default inversion of `__eq__`. */
  predicate Ne(a: Version, b: Version) {
    !Eq(a, b)
  }

  // ----- compare_parts -----

  /** The `i`-th segment of one side, with "" past its end, as `zip_longest` pads it. */
  function Padded(xs: seq<string>, i: nat): string {
    if i < |xs| then xs[i] else ""
  }

  function Longest(xs: seq<string>, ys: seq<string>): nat {
    if |xs| < |ys| then |ys| else |xs|
  }

  /** The padded segment lists agree at every position in [lo, hi). */
  ghost predicate AgreeOn(xs: seq<string>, ys: seq<string>, lo: nat, hi: nat) {
    forall j :: lo <= j < hi ==> Padded(xs, j) == Padded(ys, j)
  }

  /** The decision at one differing pair of segments: if both begin with a
      digit run, the runs' integer values alone decide; otherwise the whole
      segments are compared as strings. */
  predicate SegmentLt(x: string, y: string) {
    var dx, dy := LeadingDigits(x), LeadingDigits(y);
    if dx != "" && dy != "" then DigitsToNat(dx) < DigitsToNat(dy) else StrLt(x, y)
  }

  /** The loop of `compare_parts` from position `i` on: equal pairs are
      skipped, the first differing pair decides, and running off the end
      yields Python's implicit `None`. */
  function CompareFrom(xs: seq<string>, ys: seq<string>, i: nat): Option<bool>
    decreases Longest(xs, ys) - i
  {
    if i >= Longest(xs, ys) then None
    else if Padded(xs, i) == Padded(ys, i) then CompareFrom(xs, ys, i + 1)
    else Some(SegmentLt(Padded(xs, i), Padded(ys, i)))
  }

  /** The loop returns `None` exactly when the padded segment lists agree
      at every remaining position. */
  lemma {:induction false} CompareFromNoneIff(xs: seq<string>, ys: seq<string>, i: nat)
    ensures CompareFrom(xs, ys, i).None? <==> AgreeOn(xs, ys, i, Longest(xs, ys))
    decreases Longest(xs, ys) - i
  {
    if i < Longest(xs, ys) && Padded(xs, i) == Padded(ys, i) {
      CompareFromNoneIff(xs, ys, i + 1);
    }
  }

  /** At the first position `k` (from `i` on) where the padded segments
      differ, the comparison is decided by that pair alone. */
  lemma {:induction false} CompareAtFirstDifference(xs: seq<string>, ys: seq<string>, i: nat, k: nat)
    requires i <= k < Longest(xs, ys)
    requires AgreeOn(xs, ys, i, k)
    requires Padded(xs, k) != Padded(ys, k)
    ensures CompareFrom(xs, ys, i) == Some(SegmentLt(Padded(xs, k), Padded(ys, k)))
    decreases k - i
  {
    if i < k {
      assert Padded(xs, i) == Padded(ys, i);
      assert AgreeOn(xs, ys, i + 1, k);
      CompareAtFirstDifference(xs, ys, i + 1, k);
    }
  }

  /** `compare_parts(a, b)`. */
  function CompareParts(a: string, b: string): Option<bool> {
    CompareFrom(Split(a, '.'), Split(b, '.'), 0)
  }

  // ----- __lt__ and the derived operators -----

  /** What `__lt__` returns: `compare_parts` on `main` if the mains differ;
      else, if the pre-releases differ, True when only `self` has one, False
      when only `other` has one, `compare_parts` on `pre` when both do; and
      `None` when both strings are equal. */
  function LtResult(a: Version, b: Version): Option<bool> {
    if a.main != b.main then CompareParts(a.main, b.main)
    else if a.pre != b.pre then
      if a.pre != "" && b.pre == "" then Some(true)
      else if a.pre == "" && b.pre != "" then Some(false)
      else CompareParts(a.pre, b.pre)
    else None
  }

  /** `a < b` in a truth context such as `assert`: `None` is falsy. */
  predicate Lt(a: Version, b: Version) {
    LtResult(a, b) == Some(true)
  }

  /** `a > b` as `total_ordering` derives it: `not (a < b) and a != b`. */
  predicate Gt(a: Version, b: Version) {
    !Lt(a, b) && Ne(a, b)
  }

  /** `a <= b` as derived: `(a < b) or a == b`. */
  predicate Le(a: Version, b: Version) {
    Lt(a, b) || Eq(a, b)
  }

  /** `a >= b` as derived: `not (a < b)`. */
  predicate Ge(a: Version, b: Version) {
    !Lt(a, b)
  }

  // ----- parsing -----

  /** The dash that separates `main` from `pre` is the first one. */
  lemma ParseAtFirstDash(main: string, pre: string)
    requires '-' !in main
    ensures Parse(main + "-" + pre) == Version(main, pre)
  {
    PartitionAtFirst(main, '-', pre);
  }

  /** Two raw strings give equal versions exactly when they are the same
      string, or one is the other (which has no dash) followed by a lone
      dash: "1.0-" has an empty `pre` and so equals "1.0". */
  lemma ParseEqIff(s: string, t: string)
    ensures Eq(Parse(s), Parse(t)) <==>
      (s == t || (s == t + "-" && '-' !in t) || (t == s + "-" && '-' !in s))
  {
    if s == t + "-" && '-' !in t {
      ParseAtFirstDash(t, "");
      assert t + "-" + "" == s;
    }
    if t == s + "-" && '-' !in s {
      ParseAtFirstDash(s, "");
      assert s + "-" + "" == t;
    }
    if Eq(Parse(s), Parse(t)) && '-' in s && '-' !in t {
      assert s == t + "-" + "";
    }
    if Eq(Parse(s), Parse(t)) && '-' !in s && '-' in t {
      assert t == s + "-" + "";
    }
  }

  // ----- compare_parts -----

  lemma SegmentLtAsymmetric(x: string, y: string)
    ensures SegmentLt(x, y) ==> !SegmentLt(y, x)
  {
    StrLtAsymmetric(x, y);
  }

  /** A differing pair of segments fails to decide in either direction
      exactly when both begin with digit runs of equal value ("1a" and
      "1b", or "01" and "1"); there is no fallback to string order then. */
  lemma SegmentUndecidedIff(x: string, y: string)
    requires x != y
    ensures (!SegmentLt(x, y) && !SegmentLt(y, x)) <==>
      (LeadingDigits(x) != "" && LeadingDigits(y) != ""
       && DigitsToNat(LeadingDigits(x)) == DigitsToNat(LeadingDigits(y)))
  {
    StrLtConnected(x, y);
  }

  /** When both segments begin with a digit run, the runs' values decide
      and whatever follows them is ignored. */
  lemma DigitRunsDecide(dx: string, sx: string, dy: string, sy: string)
    requires dx != "" && AllDigits(dx) && (sx == "" || !IsDigit(sx[0]))
    requires dy != "" && AllDigits(dy) && (sy == "" || !IsDigit(sy[0]))
    ensures SegmentLt(dx + sx, dy + sy) <==> DigitsToNat(dx) < DigitsToNat(dy)
  {
    LeadingDigitsOfRun(dx, sx);
    LeadingDigitsOfRun(dy, sy);
  }

  /** Swapping the arguments of the loop keeps "no decision" as it is and
      turns a True decision into False: both directions stop at the same
      first differing position. */
  lemma {:induction false} CompareFromSwap(xs: seq<string>, ys: seq<string>, i: nat)
    ensures CompareFrom(ys, xs, i).None? == CompareFrom(xs, ys, i).None?
    ensures CompareFrom(xs, ys, i) == Some(true) ==> CompareFrom(ys, xs, i) == Some(false)
    decreases Longest(xs, ys) - i
  {
    if i < Longest(xs, ys) {
      if Padded(xs, i) == Padded(ys, i) {
        CompareFromSwap(xs, ys, i + 1);
      } else {
        SegmentLtAsymmetric(Padded(xs, i), Padded(ys, i));
      }
    }
  }

  /** A missing segment counts as "": a main extended by a further
      non-empty segment sorts after it ("1.0" < "1.0.0", "1.0" < "1.0.1"),
      whatever the pre-releases are. */
  lemma ShorterMainFirst(main: string, t: string, p: string, q: string)
    requires t != "" && t[0] != '.'
    ensures CompareParts(main, main + "." + t) == Some(true)
    ensures Lt(Version(main, p), Version(main + "." + t, q))
  {
    var xs, ys := Split(main, '.'), Split(main + "." + t, '.');
    SplitAppend(main, '.', t);
    assert ys == xs + Split(t, '.');
    assert Split(t, '.')[0] != "";
    var k := |xs|;
    assert Padded(ys, k) == Split(t, '.')[0];
    assert AgreeOn(xs, ys, 0, k) by {
      forall j | 0 <= j < k ensures Padded(xs, j) == Padded(ys, j) {
        assert ys[j] == xs[j];
      }
    }
    CompareAtFirstDifference(xs, ys, 0, k);
    assert |main + "." + t| > |main|;
  }

  /** A trailing "." adds an empty segment, which padding supplies anyway:
      neither `<` holds, the versions are not equal, and so each is `>` the
      other. */
  lemma TrailingDotIncomparable(main: string, pre: string)
    ensures CompareParts(main, main + ".") == None
    ensures var a, b := Version(main, pre), Version(main + ".", pre);
      !Lt(a, b) && !Lt(b, a) && Ne(a, b) && Gt(a, b) && Gt(b, a)
  {
    var xs, ys := Split(main, '.'), Split(main + ".", '.');
    SplitAppend(main, '.', "");
    assert main + "." + "" == main + ".";
    assert ys == xs + [""];
    assert AgreeOn(xs, ys, 0, Longest(xs, ys)) by {
      forall j | 0 <= j < Longest(xs, ys) ensures Padded(xs, j) == Padded(ys, j) {
        if j < |xs| { assert ys[j] == xs[j]; }
      }
    }
    CompareFromNoneIff(xs, ys, 0);
    CompareFromSwap(xs, ys, 0);
    assert |main + "."| > |main|;
  }

  /** Two single-segment mains whose digit runs have equal value but which
      differ as strings are incomparable under `<`. */
  lemma EqualDigitRunsIncomparable(x: string, y: string, pre: string)
    requires '.' !in x && '.' !in y && x != y
    requires LeadingDigits(x) != "" && LeadingDigits(y) != ""
    requires DigitsToNat(LeadingDigits(x)) == DigitsToNat(LeadingDigits(y))
    ensures var a, b := Version(x, pre), Version(y, pre);
      !Lt(a, b) && !Lt(b, a) && Ne(a, b) && Gt(a, b) && Gt(b, a)
  {
    SplitNoSeparator(x, '.');
    SplitNoSeparator(y, '.');
    CompareAtFirstDifference([x], [y], 0, 0);
    CompareAtFirstDifference([y], [x], 0, 0);
  }

  // ----- __lt__ -----

  /** When the mains differ they alone decide: `pre` is never consulted. */
  lemma MainDecides(m1: string, p1: string, q1: string, m2: string, p2: string, q2: string)
    requires m1 != m2
    ensures LtResult(Version(m1, p1), Version(m2, p2)) == CompareParts(m1, m2)
    ensures LtResult(Version(m1, p1), Version(m2, p2)) == LtResult(Version(m1, q1), Version(m2, q2))
  {
  }

  /** A version with a pre-release sorts below the release with the same
      main, never the reverse. */
  lemma PreReleaseBeforeRelease(main: string, pre: string)
    requires '-' !in main && pre != ""
    ensures Lt(Parse(main + "-" + pre), Parse(main))
    ensures !Lt(Parse(main), Parse(main + "-" + pre))
    ensures Gt(Parse(main), Parse(main + "-" + pre))
  {
    ParseAtFirstDash(main, pre);
  }

  /** `<` is irreflexive and asymmetric. */
  lemma LtStrict(a: Version, b: Version)
    ensures !Lt(a, a)
    ensures Lt(a, b) ==> !Lt(b, a)
  {
    if a.main != b.main {
      CompareFromSwap(Split(a.main, '.'), Split(b.main, '.'), 0);
    } else if a.pre != b.pre {
      CompareFromSwap(Split(a.pre, '.'), Split(b.pre, '.'), 0);
    }
  }

  /** The derived operators: exactly one of `<`, `==`, `>` holds; `b < a`
      implies `a > b`; `<=` is `not >` and `>=` is `> or ==`. The converse
      of the second fails (TrailingDotIncomparable). */
  lemma DerivedOperators(a: Version, b: Version)
    ensures (Lt(a, b) && !Eq(a, b) && !Gt(a, b))
         || (!Lt(a, b) && Eq(a, b) && !Gt(a, b))
         || (!Lt(a, b) && !Eq(a, b) && Gt(a, b))
    ensures Lt(b, a) ==> Gt(a, b)
    ensures Le(a, b) <==> !Gt(a, b)
    ensures Ge(a, b) <==> (Gt(a, b) || Eq(a, b))
  {
    LtStrict(b, a);
  }
}
