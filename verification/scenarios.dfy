/** Worked cases of the two passes and of the redirect test, with the
    values the source computes for them. */
module Scenarios {
  import opened Records
  import opened Counter
  import opened Decimal
  import opened Redirect
  import opened PerUser

  /** Leading whitespace is skipped and the token's case is ignored. */
  lemma RedirectWithLeadingSpace()
    ensures IsRedirect(" #REDIRECT  [[Foo]]")
  {
    var t := " #REDIRECT  [[Foo]]";
    assert SkipSpace(t, 0) == 1;
    assert TokenAt(t, 2, RedirectWord) by {
      forall j | 0 <= j < 8
        ensures Lower(t[2 + j]) == RedirectWord[j]
      {
      }
    }
    assert SkipSpace(t, 10) == 12;
  }

  /** The Bulgarian token, in capitals, is recognised too. */
  lemma RedirectBulgarianCapitals()
    ensures IsRedirect("#\U{0412}\U{0418}\U{0416} [[X]]")
  {
    var t := "#\U{0412}\U{0418}\U{0416} [[X]]";
    assert SkipSpace(t, 0) == 0;
    assert TokenAt(t, 1, Viz) by {
      forall j | 0 <= j < 3
        ensures Lower(t[1 + j]) == Viz[j]
      {
      }
    }
    assert SkipSpace(t, 4) == 5;
  }

  /** `\s+` needs at least one whitespace character before `[[`. */
  lemma NoSpaceNoRedirect()
    ensures !IsRedirect("#REDIRECT[[Foo]]")
  {
  }

  /** A month cutoff of 2020-01 keeps a January 2019 contribution out of
      `months` (and out of `weeks`), but `years` still counts it. */
  lemma MonthCutoffExample()
    ensures var c := Contribution("Sandbox", 7, 3, "", 2019, 1, 2);
            var opt := Options(Some(Cutoff(2020, 1)), None, false, false, {});
            var s := Collect([c], opt);
            s.years == map["2019" := 1] && s.months == map[] && s.weeks == map[]
  {
    var c := Contribution("Sandbox", 7, 3, "", 2019, 1, 2);
    var opt := Options(Some(Cutoff(2020, 1)), None, false, false, {});
    CollectSnoc([], c, opt);
    assert [] + [c] == [c];
    assert Pad(2019, 4) == "2019";
    ParsePad(2019, 4);
    assert Admitted(c, opt);
    assert Collect([], opt) == Stats(map[], map[], map[]);
    assert Inc(map[], "2019") == map["2019" := 1];
  }

  /** The month part of a cutoff is never consulted: with a cutoff of
      2020-06, a January 2020 contribution is counted in `months`. */
  lemma MonthPartIgnoredExample()
    ensures var c := Contribution("Sandbox", 7, 3, "", 2020, 1, 2);
            var opt := Options(Some(Cutoff(2020, 6)), None, false, false, {});
            Collect([c], opt).months == map["2020 01" := 1]
  {
    var c := Contribution("Sandbox", 7, 3, "", 2020, 1, 2);
    var opt := Options(Some(Cutoff(2020, 6)), None, false, false, {});
    CollectSnoc([], c, opt);
    assert [] + [c] == [c];
    assert Pad(2020, 4) == "2020";
    assert Pad(1, 2) == "01";
    ParsePad(2020, 4);
    ParsePad(1, 2);
    assert Admitted(c, opt);
    assert Collect([], opt) == Stats(map[], map[], map[]);
    assert PassesCutoff(opt.monthsSince, 2020, 1);
    assert Pad(2020, 4) + " " + Pad(1, 2) == "2020 01";
    assert Inc(map[], "2020 01") == map["2020 01" := 1];
  }
}
