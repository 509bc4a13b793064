/** The pairs that `main()` asserts, each shown to satisfy `left < right`,
    `right > left` and `right != left`, and concrete instances of the
    comparator's quirks. */
module SemverTests {
  import opened Wrappers
  import opened PyStr
  import opened Semver

  /** What `main()` asserts of one pair. */
  predicate PairHolds(left: string, right: string) {
    Lt(Parse(left), Parse(right)) && Gt(Parse(right), Parse(left)) && Ne(Parse(right), Parse(left))
  }

  const ToTest: seq<(string, string)> := [
    ("1.0.0", "2.0.0"),
    ("1.0.0", "1.42.0"),
    ("1.2.0", "1.2.42"),
    ("1.1.0-alpha", "1.2.0-alpha.1"),
    ("1.0.1b", "1.0.10-alpha.beta"),
    ("1.0.0-rc.1", "1.0.0")
  ]

  /** The segments of a three-part dotted string. */
  lemma Segments(s: string, a: string, b: string, c: string)
    requires '.' !in a && '.' !in b && '.' !in c
    requires s == a + "." + b + "." + c
    ensures Split(s, '.') == [a, b, c]
  {
    SplitAppend(a + "." + b, '.', c);
    SplitAppend(a, '.', b);
    SplitNoSeparator(a, '.');
    SplitNoSeparator(b, '.');
    SplitNoSeparator(c, '.');
  }

  /** `>` and `!=` follow from `<` for every pair. */
  lemma PairFromLt(left: string, right: string, a: Version, b: Version)
    requires Parse(left) == a && Parse(right) == b && Lt(a, b)
    ensures PairHolds(left, right)
  {
    LtStrict(a, b);
    DerivedOperators(b, a);
  }

  /** `<` decided by the mains' segment lists. */
  lemma LtByMains(a: Version, b: Version, xs: seq<string>, ys: seq<string>)
    requires a.main != b.main
    requires Split(a.main, '.') == xs && Split(b.main, '.') == ys
    requires CompareFrom(xs, ys, 0) == Some(true)
    ensures Lt(a, b)
  {
  }

  lemma Parsed_1_0_0()
    ensures Parse("1.0.0") == Version("1.0.0", "")
  {
  }

  lemma Parsed_2_0_0()
    ensures Parse("2.0.0") == Version("2.0.0", "")
  {
  }

  lemma Pair1Decide()
    ensures CompareFrom(["1", "0", "0"], ["2", "0", "0"], 0) == Some(true)
  {
    var xs, ys := ["1", "0", "0"], ["2", "0", "0"];
    assert AgreeOn(xs, ys, 0, 0);
    CompareAtFirstDifference(xs, ys, 0, 0);
    DigitRunsDecide("1", "", "2", "");
  }

  lemma Pair1Lt()
    ensures Lt(Version("1.0.0", ""), Version("2.0.0", ""))
  {
    Segments("1.0.0", "1", "0", "0");
    Segments("2.0.0", "2", "0", "0");
    Pair1Decide();
    LtByMains(Version("1.0.0", ""), Version("2.0.0", ""), ["1", "0", "0"], ["2", "0", "0"]);
  }

  lemma Pair1()
    ensures PairHolds("1.0.0", "2.0.0")
  {
    Parsed_1_0_0();
    Parsed_2_0_0();
    Pair1Lt();
    PairFromLt("1.0.0", "2.0.0", Version("1.0.0", ""), Version("2.0.0", ""));
  }

  lemma Parsed_1_42_0()
    ensures Parse("1.42.0") == Version("1.42.0", "")
  {
  }

  lemma Pair2Decide()
    ensures CompareFrom(["1", "0", "0"], ["1", "42", "0"], 0) == Some(true)
  {
    var xs, ys := ["1", "0", "0"], ["1", "42", "0"];
    assert AgreeOn(xs, ys, 0, 1);
    CompareAtFirstDifference(xs, ys, 0, 1);
    DigitRunsDecide("0", "", "42", "");
    assert DigitsToNat("42") == 42 by { assert "42"[..1] == "4"; }
  }

  lemma Pair2Lt()
    ensures Lt(Version("1.0.0", ""), Version("1.42.0", ""))
  {
    Segments("1.0.0", "1", "0", "0");
    Segments("1.42.0", "1", "42", "0");
    Pair2Decide();
    LtByMains(Version("1.0.0", ""), Version("1.42.0", ""), ["1", "0", "0"], ["1", "42", "0"]);
  }

  lemma Pair2()
    ensures PairHolds("1.0.0", "1.42.0")
  {
    Parsed_1_0_0();
    Parsed_1_42_0();
    Pair2Lt();
    PairFromLt("1.0.0", "1.42.0", Version("1.0.0", ""), Version("1.42.0", ""));
  }

  lemma Parsed_1_2_0()
    ensures Parse("1.2.0") == Version("1.2.0", "")
  {
  }

  lemma Parsed_1_2_42()
    ensures Parse("1.2.42") == Version("1.2.42", "")
  {
  }

  lemma Pair3Decide()
    ensures CompareFrom(["1", "2", "0"], ["1", "2", "42"], 0) == Some(true)
  {
    var xs, ys := ["1", "2", "0"], ["1", "2", "42"];
    assert AgreeOn(xs, ys, 0, 2);
    CompareAtFirstDifference(xs, ys, 0, 2);
    DigitRunsDecide("0", "", "42", "");
    assert DigitsToNat("42") == 42 by { assert "42"[..1] == "4"; }
  }

  lemma Pair3Lt()
    ensures Lt(Version("1.2.0", ""), Version("1.2.42", ""))
  {
    Segments("1.2.0", "1", "2", "0");
    Segments("1.2.42", "1", "2", "42");
    Pair3Decide();
    LtByMains(Version("1.2.0", ""), Version("1.2.42", ""), ["1", "2", "0"], ["1", "2", "42"]);
  }

  lemma Pair3()
    ensures PairHolds("1.2.0", "1.2.42")
  {
    Parsed_1_2_0();
    Parsed_1_2_42();
    Pair3Lt();
    PairFromLt("1.2.0", "1.2.42", Version("1.2.0", ""), Version("1.2.42", ""));
  }

  lemma Parsed_1_1_0_alpha()
    ensures Parse("1.1.0-alpha") == Version("1.1.0", "alpha")
  {
    assert "1.1.0" + "-" + "alpha" == "1.1.0-alpha";
    ParseAtFirstDash("1.1.0", "alpha");
  }

  lemma Parsed_1_2_0_alpha_1()
    ensures Parse("1.2.0-alpha.1") == Version("1.2.0", "alpha.1")
  {
    assert "1.2.0" + "-" + "alpha.1" == "1.2.0-alpha.1";
    ParseAtFirstDash("1.2.0", "alpha.1");
  }

  lemma Pair4Decide()
    ensures CompareFrom(["1", "1", "0"], ["1", "2", "0"], 0) == Some(true)
  {
    var xs, ys := ["1", "1", "0"], ["1", "2", "0"];
    assert AgreeOn(xs, ys, 0, 1);
    CompareAtFirstDifference(xs, ys, 0, 1);
    DigitRunsDecide("1", "", "2", "");
  }

  lemma Pair4Lt()
    ensures Lt(Version("1.1.0", "alpha"), Version("1.2.0", "alpha.1"))
  {
    Segments("1.1.0", "1", "1", "0");
    Segments("1.2.0", "1", "2", "0");
    Pair4Decide();
    LtByMains(Version("1.1.0", "alpha"), Version("1.2.0", "alpha.1"), ["1", "1", "0"], ["1", "2", "0"]);
  }

  lemma Pair4()
    ensures PairHolds("1.1.0-alpha", "1.2.0-alpha.1")
  {
    Parsed_1_1_0_alpha();
    Parsed_1_2_0_alpha_1();
    Pair4Lt();
    PairFromLt("1.1.0-alpha", "1.2.0-alpha.1", Version("1.1.0", "alpha"), Version("1.2.0", "alpha.1"));
  }

  lemma Parsed_1_0_1b()
    ensures Parse("1.0.1b") == Version("1.0.1b", "")
  {
  }

  lemma Parsed_1_0_10_alpha_beta()
    ensures Parse("1.0.10-alpha.beta") == Version("1.0.10", "alpha.beta")
  {
    assert "1.0.10" + "-" + "alpha.beta" == "1.0.10-alpha.beta";
    ParseAtFirstDash("1.0.10", "alpha.beta");
  }

  lemma Pair5Decide()
    ensures CompareFrom(["1", "0", "1b"], ["1", "0", "10"], 0) == Some(true)
  {
    var xs, ys := ["1", "0", "1b"], ["1", "0", "10"];
    assert AgreeOn(xs, ys, 0, 2);
    CompareAtFirstDifference(xs, ys, 0, 2);
    DigitRunsDecide("1", "b", "10", "");
    assert "1" + "b" == "1b";
    assert DigitsToNat("10") == 10 by { assert "10"[..1] == "1"; }
  }

  lemma Pair5Lt()
    ensures Lt(Version("1.0.1b", ""), Version("1.0.10", "alpha.beta"))
  {
    Segments("1.0.1b", "1", "0", "1b");
    Segments("1.0.10", "1", "0", "10");
    Pair5Decide();
    LtByMains(Version("1.0.1b", ""), Version("1.0.10", "alpha.beta"), ["1", "0", "1b"], ["1", "0", "10"]);
  }

  lemma Pair5()
    ensures PairHolds("1.0.1b", "1.0.10-alpha.beta")
  {
    Parsed_1_0_1b();
    Parsed_1_0_10_alpha_beta();
    Pair5Lt();
    PairFromLt("1.0.1b", "1.0.10-alpha.beta", Version("1.0.1b", ""), Version("1.0.10", "alpha.beta"));
  }

  lemma Parsed_1_0_0_rc_1()
    ensures Parse("1.0.0-rc.1") == Version("1.0.0", "rc.1")
  {
    assert "1.0.0" + "-" + "rc.1" == "1.0.0-rc.1";
    ParseAtFirstDash("1.0.0", "rc.1");
  }

  lemma Pair6()
    ensures PairHolds("1.0.0-rc.1", "1.0.0")
  {
    Parsed_1_0_0_rc_1();
    Parsed_1_0_0();
    PairFromLt("1.0.0-rc.1", "1.0.0", Version("1.0.0", "rc.1"), Version("1.0.0", ""));
  }

  /** The loop of `main()`: every pair passes all three assertions. */
  lemma TestPairsHold()
    ensures forall k :: 0 <= k < |ToTest| ==> PairHolds(ToTest[k].0, ToTest[k].1)
  {
    forall k | 0 <= k < |ToTest|
      ensures PairHolds(ToTest[k].0, ToTest[k].1)
    {
      if k == 0 { assert ToTest[k] == ("1.0.0", "2.0.0"); Pair1(); }
      else if k == 1 { assert ToTest[k] == ("1.0.0", "1.42.0"); Pair2(); }
      else if k == 2 { assert ToTest[k] == ("1.2.0", "1.2.42"); Pair3(); }
      else if k == 3 { assert ToTest[k] == ("1.1.0-alpha", "1.2.0-alpha.1"); Pair4(); }
      else if k == 4 { assert ToTest[k] == ("1.0.1b", "1.0.10-alpha.beta"); Pair5(); }
      else { assert ToTest[k] == ("1.0.0-rc.1", "1.0.0"); Pair6(); }
    }
  }

  // ----- the quirks, on concrete strings -----

  /** A missing segment counts as "": "1.0" < "1.0.0" and "1.0" < "1.0.1". */
  lemma PaddingExamples()
    ensures Lt(Parse("1.0"), Parse("1.0.0"))
    ensures Lt(Parse("1.0"), Parse("1.0.1"))
  {
    assert "1.0" + "." + "0" == "1.0.0";
    assert "1.0" + "." + "1" == "1.0.1";
    assert Parse("1.0") == Version("1.0", "");
    Parsed_1_0_0();
    assert Parse("1.0.1") == Version("1.0.1", "");
    ShorterMainFirst("1.0", "0", "", "");
    ShorterMainFirst("1.0", "1", "", "");
  }

  /** "1.0" and "1.0." are neither `<` nor `==`, so each is `>` the other. */
  lemma TrailingDotExample()
    ensures var a, b := Parse("1.0"), Parse("1.0.");
      !Lt(a, b) && !Lt(b, a) && Ne(a, b) && Gt(a, b) && Gt(b, a)
  {
    assert "1.0" + "." == "1.0.";
    assert Parse("1.0") == Version("1.0", "");
    assert Parse("1.0.") == Version("1.0.", "");
    TrailingDotIncomparable("1.0", "");
  }

  lemma Runs_1a_1b()
    ensures var a, b := Parse("1a"), Parse("1b");
      !Lt(a, b) && !Lt(b, a) && Ne(a, b) && Gt(a, b) && Gt(b, a)
  {
    assert Parse("1a") == Version("1a", "");
    assert Parse("1b") == Version("1b", "");
    assert LeadingDigits("1a") == "1";
    assert LeadingDigits("1b") == "1";
    EqualDigitRunsIncomparable("1a", "1b", "");
  }

  lemma Runs_01_1()
    ensures var a, b := Parse("01"), Parse("1");
      !Lt(a, b) && !Lt(b, a) && Ne(a, b) && Gt(a, b) && Gt(b, a)
  {
    assert Parse("01") == Version("01", "");
    assert Parse("1") == Version("1", "");
    assert LeadingDigits("01") == "01";
    assert LeadingDigits("1") == "1";
    LeadingZeroIgnored("1");
    EqualDigitRunsIncomparable("01", "1", "");
  }

  /** Digit runs of equal value never decide: "1a" vs "1b" and "01" vs "1"
      are incomparable under `<`. */
  lemma EqualDigitRunsExamples()
    ensures var a, b := Parse("1a"), Parse("1b"); !Lt(a, b) && !Lt(b, a) && Ne(a, b)
    ensures var a, b := Parse("01"), Parse("1"); !Lt(a, b) && !Lt(b, a) && Ne(a, b)
  {
    Runs_1a_1b();
    Runs_01_1();
  }

  /** A trailing dash leaves `pre` empty: "1.0-" equals "1.0". */
  lemma TrailingDashExample()
    ensures Eq(Parse("1.0-"), Parse("1.0"))
  {
    assert "1.0" + "-" == "1.0-";
    ParseEqIff("1.0-", "1.0");
  }
}
