/** The per-user pass: filter one user's contributions and count the
    survivors into year, year-month and year-week buckets. */
module PerUser {
  import opened Records
  import opened Counter
  import opened Decimal
  import opened Redirect

  /** A `--month-stats-since` or `--week-stats-since` value "YYYY-NN",
      after `int()` has read its two fields. */
  datatype Cutoff = Cutoff(year: int, part: int)

  /** The parameters of `peruser` that shape the counting. */
  datatype Options = Options(
    monthsSince: Option<Cutoff>,
    weeksSince: Option<Cutoff>,
    createdOnly: bool,
    includeRedirects: bool,
    excludes: set<string>)

  /** The `stats` dictionary: `years`, `months` and `weeks`. */
  datatype Stats = Stats(years: Counts, months: Counts, weeks: Counts)

  datatype Bucket = Years | Months | Weeks

  function BucketOf(s: Stats, b: Bucket): Counts {
    match b
    case Years => s.years
    case Months => s.months
    case Weeks => s.weeks
  }

  /** A cutoff test as the source writes it: first "year before the
      cutoff's year", then "year before the cutoff's year and part equal
      to the cutoff's part". */
  predicate PassesCutoff(cut: Option<Cutoff>, year: int, part: int) {
    match cut
    case None => true
    case Some(k) =>
      if year < k.year then false
      else if year < k.year && part == k.part then false
      else true
  }

  /** The three filters, each skipping the contribution when it fails:
      excluded page, not the page's first revision (with `createdOnly`),
      and a redirect marker in the page's oldest text (unless
      `includeRedirects`). */
  predicate Admitted(c: Contribution, opt: Options) {
    if c.title in opt.excludes then false
    else if opt.createdOnly && c.revid != c.oldestRevid then false
    else if !opt.includeRedirects && IsRedirect(c.oldestText) then false
    else true
  }

  /** One turn of the loop over the contributions. A failed month cutoff
      leaves the turn through `continue`, so it skips the week bucket too. */
  function Step(s: Stats, c: Contribution, opt: Options): Stats {
    if !Admitted(c, opt) then s
    else
      var year := Pad(c.year, 4);
      var month := Pad(c.month, 2);
      var week := Pad(c.isoWeek, 2);
      var s1 := s.(years := Inc(s.years, year));
      if !PassesCutoff(opt.monthsSince, Parse(year), Parse(month)) then s1
      else
        var s2 := s1.(months := Inc(s1.months, year + " " + month));
        if !PassesCutoff(opt.weeksSince, Parse(year), Parse(week)) then s2
        else s2.(weeks := Inc(s2.weeks, year + " " + week))
  }

  /** `peruser`'s `stats` after the loop over `cs`, in listing order. */
  function Collect(cs: seq<Contribution>, opt: Options): (r: Stats)
    ensures forall b :: BucketOf(r, b) == Tally(Keys(cs, opt, b))
  {
    if cs == [] then Stats(map[], map[], map[])
    else
      var p := cs[..|cs| - 1];
      var c := cs[|cs| - 1];
      var s := Collect(p, opt);
      StepTallies(p, c, opt, s);
      assert cs == p + [c];
      Step(s, c, opt)
  }

  // Reference description of what lands in each bucket.

  /** Whether `c` is counted in bucket `b`: it passes the three filters
      (the redirect test read as the regular expression it is), and, for
      the month and week buckets, its year is not before the month
      cutoff's year; for the week bucket also not before the week cutoff's
      year. The cutoffs' month and week parts play no part. */
  ghost predicate Reaches(c: Contribution, opt: Options, b: Bucket) {
    && c.title !in opt.excludes
    && (opt.createdOnly ==> c.revid == c.oldestRevid)
    && (opt.includeRedirects || !MatchesPattern(c.oldestText))
    && (b != Years ==> opt.monthsSince.None? || c.year >= opt.monthsSince.value.year)
    && (b == Weeks ==> opt.weeksSince.None? || c.year >= opt.weeksSince.value.year)
  }

  /** The contributions of `cs` counted in bucket `b`, in order. */
  ghost function Passing(cs: seq<Contribution>, opt: Options, b: Bucket): (r: seq<Contribution>)
    ensures |r| <= |cs|
    ensures forall c :: c in r ==> c in cs && Reaches(c, opt, b)
  {
    if cs == [] then []
    else
      var c := cs[|cs| - 1];
      Passing(cs[..|cs| - 1], opt, b) + (if Reaches(c, opt, b) then [c] else [])
  }

  /** The bucket key of a year and a month or ISO week number:
      "YYYY", "YYYY MM" or "YYYY WW". */
  function KeyFor(b: Bucket, year: nat, part: nat): string {
    if b == Years then Pad(year, 4) else Pad(year, 4) + " " + Pad(part, 2)
  }

  /** The month or week number a contribution is filed under in `b`. */
  function PartOf(c: Contribution, b: Bucket): nat {
    if b == Weeks then c.isoWeek else c.month
  }

  function KeyOf(c: Contribution, b: Bucket): string {
    KeyFor(b, c.year, PartOf(c, b))
  }

  /** The bucket keys of the contributions counted in `b`, one per contribution. */
  ghost function Keys(cs: seq<Contribution>, opt: Options, b: Bucket): seq<string> {
    KeysOf(Passing(cs, opt, b), b)
  }

  function KeysOf(ps: seq<Contribution>, b: Bucket): (r: seq<string>)
    ensures |r| == |ps|
  {
    if ps == [] then [] else KeysOf(ps[..|ps| - 1], b) + [KeyOf(ps[|ps| - 1], b)]
  }

  /** Only the cutoff's year matters: the second test of a cutoff can
      never fail once the first has passed. */
  lemma CutoffComparesYearOnly(cut: Option<Cutoff>, year: int, part: int)
    ensures PassesCutoff(cut, year, part) <==> cut.None? || year >= cut.value.year
  {
  }

  lemma KeysSnoc(cs: seq<Contribution>, c: Contribution, opt: Options, b: Bucket)
    ensures Keys(cs + [c], opt, b) ==
              Keys(cs, opt, b) + (if Reaches(c, opt, b) then [KeyOf(c, b)] else [])
  {
    assert (cs + [c])[..|cs|] == cs;
    var ps := Passing(cs, opt, b);
    assert Passing(cs + [c], opt, b) == ps + (if Reaches(c, opt, b) then [c] else []);
    if Reaches(c, opt, b) {
      assert (ps + [c])[..|ps|] == ps;
      assert KeysOf(ps + [c], b) == KeysOf(ps, b) + [KeyOf(c, b)];
    } else {
      assert ps + [] == ps;
    }
  }

  /** The scanning filters agree with the reference filters. */
  lemma AdmittedReachesYears(c: Contribution, opt: Options)
    ensures Admitted(c, opt) <==> Reaches(c, opt, Years)
  {
    IsRedirectMatchesPattern(c.oldestText);
  }

  /** One loop turn increments, in each bucket that `c` reaches, the key of
      `c`, and changes nothing else. */
  lemma StepBuckets(s: Stats, c: Contribution, opt: Options)
    ensures Step(s, c, opt) == Stats(
              if Reaches(c, opt, Years) then Inc(s.years, KeyOf(c, Years)) else s.years,
              if Reaches(c, opt, Months) then Inc(s.months, KeyOf(c, Months)) else s.months,
              if Reaches(c, opt, Weeks) then Inc(s.weeks, KeyOf(c, Weeks)) else s.weeks)
  {
    AdmittedReachesYears(c, opt);
    ParsePad(c.year, 4);
    ParsePad(c.month, 2);
    ParsePad(c.isoWeek, 2);
    CutoffComparesYearOnly(opt.monthsSince, c.year, c.month);
    CutoffComparesYearOnly(opt.weeksSince, c.year, c.isoWeek);
  }

  /** One loop turn adds each bucket's key of `c` exactly when `c` reaches that bucket. */
  lemma StepTallies(cs: seq<Contribution>, c: Contribution, opt: Options, s: Stats)
    requires forall b :: BucketOf(s, b) == Tally(Keys(cs, opt, b))
    ensures forall b :: BucketOf(Step(s, c, opt), b) == Tally(Keys(cs + [c], opt, b))
  {
    StepBuckets(s, c, opt);
    forall b
      ensures BucketOf(Step(s, c, opt), b) == Tally(Keys(cs + [c], opt, b))
    {
      KeysSnoc(cs, c, opt, b);
      if Reaches(c, opt, b) {
        TallySnoc(Keys(cs, opt, b), KeyOf(c, b));
      } else {
        assert Keys(cs + [c], opt, b) == Keys(cs, opt, b);
      }
    }
  }

  // Properties of the per-user pass.

  lemma CollectSnoc(cs: seq<Contribution>, c: Contribution, opt: Options)
    ensures Collect(cs + [c], opt) == Step(Collect(cs, opt), c, opt)
  {
    assert (cs + [c])[..|cs|] == cs;
  }

  /** Each bucket's counts add up to the number of contributions that reach
      it; in particular `years` sums to the number of contributions passing
      the three filters, whatever the cutoffs. Every contribution counted in
      `weeks` is counted in `months`, and every one in `months` in `years`. */
  lemma {:induction false} BucketTotals(cs: seq<Contribution>, opt: Options)
    ensures forall b :: Total(BucketOf(Collect(cs, opt), b)) == |Passing(cs, opt, b)|
    ensures |Passing(cs, opt, Weeks)| <= |Passing(cs, opt, Months)| <= |Passing(cs, opt, Years)|
    decreases |cs|
  {
    forall b
      ensures Total(BucketOf(Collect(cs, opt), b)) == |Passing(cs, opt, b)|
    {
      TotalTally(Keys(cs, opt, b));
    }
    if cs != [] {
      BucketTotals(cs[..|cs| - 1], opt);
    }
  }

  /** Contributions that reach a bucket: how many have the given year and,
      for months and weeks, the given month or ISO week number. */
  function CountMatching(ps: seq<Contribution>, b: Bucket, year: nat, part: nat): nat {
    if ps == [] then 0
    else
      var c := ps[|ps| - 1];
      CountMatching(ps[..|ps| - 1], b, year, part)
        + (if c.year == year && (b == Years || PartOf(c, b) == part) then 1 else 0)
  }

  /** Bucket keys name their year and part unambiguously. */
  lemma KeyForInjective(b: Bucket, y1: nat, p1: nat, y2: nat, p2: nat)
    ensures KeyFor(b, y1, p1) == KeyFor(b, y2, p2) <==> y1 == y2 && (b == Years || p1 == p2)
  {
    if KeyFor(b, y1, p1) == KeyFor(b, y2, p2) {
      if b == Years {
        PadInjective(y1, y2, 4);
      } else {
        SplitAtSpace(Pad(y1, 4), Pad(p1, 2), Pad(y2, 4), Pad(p2, 2));
        PadInjective(y1, y2, 4);
        PadInjective(p1, p2, 2);
      }
    }
  }

  lemma CountSnoc(ks: seq<string>, x: string, k: string)
    ensures multiset(ks + [x])[k] == multiset(ks)[k] + (if x == k then 1 else 0)
  {
    assert multiset(ks + [x]) == multiset(ks) + multiset{x};
  }

  /** How many contributions of `ps` have bucket key `k` in `b`. */
  function CountKey(ps: seq<Contribution>, b: Bucket, k: string): nat {
    if ps == [] then 0
    else CountKey(ps[..|ps| - 1], b, k) + (if KeyOf(ps[|ps| - 1], b) == k then 1 else 0)
  }

  lemma {:induction false} KeysOfCountKey(ps: seq<Contribution>, b: Bucket, k: string)
    ensures multiset(KeysOf(ps, b))[k] == CountKey(ps, b, k)
    decreases |ps|
  {
    if ps != [] {
      var p := ps[..|ps| - 1];
      KeysOfCountKey(p, b, k);
      assert KeysOf(ps, b) == KeysOf(p, b) + [KeyOf(ps[|ps| - 1], b)];
      CountSnoc(KeysOf(p, b), KeyOf(ps[|ps| - 1], b), k);
    }
  }

  lemma {:induction false} CountKeyMatching(ps: seq<Contribution>, b: Bucket, year: nat, part: nat)
    ensures CountKey(ps, b, KeyFor(b, year, part)) == CountMatching(ps, b, year, part)
    decreases |ps|
  {
    if ps != [] {
      var c := ps[|ps| - 1];
      CountKeyMatching(ps[..|ps| - 1], b, year, part);
      KeyForInjective(b, c.year, PartOf(c, b), year, part);
    }
  }

  /** The count under the key "YYYY" (or "YYYY MM", "YYYY WW") is the number
      of contributions reaching that bucket in that year (and month, or ISO
      week); a key that no such contribution has is absent. */
  lemma BucketCount(cs: seq<Contribution>, opt: Options, b: Bucket, year: nat, part: nat)
    ensures var m := BucketOf(Collect(cs, opt), b);
            var k := KeyFor(b, year, part);
            && (k in m <==> CountMatching(Passing(cs, opt, b), b, year, part) > 0)
            && Get(m, k) == CountMatching(Passing(cs, opt, b), b, year, part)
  {
    KeysOfCountKey(Passing(cs, opt, b), b, KeyFor(b, year, part));
    CountKeyMatching(Passing(cs, opt, b), b, year, part);
  }

  /** `cs` without its contributions to the pages in `pages`. */
  function WithoutPages(cs: seq<Contribution>, pages: set<string>): (r: seq<Contribution>)
    ensures forall c :: c in r <==> c in cs && c.title !in pages
  {
    if cs == [] then []
    else
      var c := cs[|cs| - 1];
      WithoutPages(cs[..|cs| - 1], pages) + (if c.title in pages then [] else [c])
  }

  lemma {:induction false} PassingWithoutPages(cs: seq<Contribution>, opt: Options, b: Bucket)
    ensures Passing(WithoutPages(cs, opt.excludes), opt, b) == Passing(cs, opt, b)
    decreases |cs|
  {
    if cs != [] {
      var p := cs[..|cs| - 1];
      var c := cs[|cs| - 1];
      PassingWithoutPages(p, opt, b);
      var w := WithoutPages(p, opt.excludes);
      assert Passing(cs, opt, b) == Passing(p, opt, b) + (if Reaches(c, opt, b) then [c] else []);
      if c.title !in opt.excludes {
        assert WithoutPages(cs, opt.excludes) == w + [c];
        assert (w + [c])[..|w|] == w;
        assert Passing(w + [c], opt, b) == Passing(w, opt, b) + (if Reaches(c, opt, b) then [c] else []);
      } else {
        assert WithoutPages(cs, opt.excludes) == w;
        assert !Reaches(c, opt, b);
      }
    }
  }

  /** A contribution to an excluded page adds to no bucket: dropping all of
      them leaves the statistics as they are. */
  lemma ExcludedPagesIgnored(cs: seq<Contribution>, opt: Options)
    ensures Collect(WithoutPages(cs, opt.excludes), opt) == Collect(cs, opt)
  {
    var l := Collect(WithoutPages(cs, opt.excludes), opt);
    var r := Collect(cs, opt);
    forall b
      ensures BucketOf(l, b) == BucketOf(r, b)
    {
      PassingWithoutPages(cs, opt, b);
    }
    assert BucketOf(l, Years) == BucketOf(r, Years);
    assert BucketOf(l, Months) == BucketOf(r, Months);
    assert BucketOf(l, Weeks) == BucketOf(r, Weeks);
  }

  lemma {:induction false} PassingYearsIgnoresCutoffs(cs: seq<Contribution>, opt: Options,
                                                      m: Option<Cutoff>, w: Option<Cutoff>)
    ensures Passing(cs, opt.(monthsSince := m, weeksSince := w), Years) == Passing(cs, opt, Years)
    decreases |cs|
  {
    if cs != [] {
      PassingYearsIgnoresCutoffs(cs[..|cs| - 1], opt, m, w);
    }
  }

  /** The `years` bucket does not depend on the month and week cutoffs. */
  lemma YearsIgnoreCutoffs(cs: seq<Contribution>, opt: Options, m: Option<Cutoff>, w: Option<Cutoff>)
    ensures Collect(cs, opt.(monthsSince := m, weeksSince := w)).years == Collect(cs, opt).years
  {
    PassingYearsIgnoresCutoffs(cs, opt, m, w);
    assert BucketOf(Collect(cs, opt.(monthsSince := m, weeksSince := w)), Years)
        == BucketOf(Collect(cs, opt), Years);
  }

  /** A contribution that passes the filters but falls before the month
      cutoff's year is counted in `years` only: the `continue` also skips
      the week bucket, whatever the week cutoff. */
  lemma MonthCutoffSkipsWeeks(cs: seq<Contribution>, c: Contribution, opt: Options)
    requires Admitted(c, opt)
    requires opt.monthsSince.Some? && c.year < opt.monthsSince.value.year
    ensures var before := Collect(cs, opt);
            var after := Collect(cs + [c], opt);
            && after.years == Inc(before.years, Pad(c.year, 4))
            && after.months == before.months
            && after.weeks == before.weeks
  {
    CollectSnoc(cs, c, opt);
    StepBuckets(Collect(cs, opt), c, opt);
    AdmittedReachesYears(c, opt);
  }

  /** A contribution that fails one of the three filters changes nothing. */
  lemma RejectedChangesNothing(cs: seq<Contribution>, c: Contribution, opt: Options)
    requires
      || c.title in opt.excludes
      || (opt.createdOnly && c.revid != c.oldestRevid)
      || (!opt.includeRedirects && MatchesPattern(c.oldestText))
    ensures Collect(cs + [c], opt) == Collect(cs, opt)
  {
    CollectSnoc(cs, c, opt);
    StepBuckets(Collect(cs, opt), c, opt);
  }

  /** With no excluded page, `createdOnly` off and redirects included,
      every contribution is counted in `years`. */
  lemma {:induction false} NoFilterCountsAll(cs: seq<Contribution>, opt: Options)
    requires opt.excludes == {} && !opt.createdOnly && opt.includeRedirects
    ensures Passing(cs, opt, Years) == cs
    ensures Total(Collect(cs, opt).years) == |cs|
    decreases |cs|
  {
    if cs != [] {
      NoFilterCountsAll(cs[..|cs| - 1], opt);
      assert cs == cs[..|cs| - 1] + [cs[|cs| - 1]];
    }
    BucketTotals(cs, opt);
    assert BucketOf(Collect(cs, opt), Years) == Collect(cs, opt).years;
  }
}
