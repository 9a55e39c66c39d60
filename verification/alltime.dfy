/** The all-time pass: count every active user's contributions, minus
    excluded pages, into an insertion-ordered dictionary, then rank the
    `(user, count)` pairs by count, largest first, keeping ties in
    dictionary order. */
module AllTime {
  import opened Records
  import opened Ranking

  /** The positions of the listed users whose edit count is positive, in
      increasing order: every such position once, and no other. */
  function ActiveIndices(users: seq<User>): (idx: seq<nat>)
    ensures forall k :: 0 <= k < |idx| ==> idx[k] < |users| && users[idx[k]].editcount > 0
    ensures forall k, l :: 0 <= k < l < |idx| ==> idx[k] < idx[l]
    ensures forall i :: 0 <= i < |users| && users[i].editcount > 0 ==> i in idx
  {
    if users == [] then []
    else
      var p := ActiveIndices(users[..|users| - 1]);
      if users[|users| - 1].editcount > 0 then p + [|users| - 1] else p
  }

  /** The names of the listed users whose edit count is positive, in
      listing order: the `k`-th name is the name at the `k`-th active
      position, so a name listed twice is kept twice. */
  function ActiveNames(users: seq<User>): (r: seq<string>)
    ensures |r| == |ActiveIndices(users)| <= |users|
    ensures forall k :: 0 <= k < |r| ==> r[k] == users[ActiveIndices(users)[k]].name
    ensures forall n :: n in r <==>
              exists i :: 0 <= i < |users| && users[i].editcount > 0 && users[i].name == n
  {
    var r := NamesAt(users, ActiveIndices(users));
    IndicesBound(ActiveIndices(users), |users|);
    NamesAtActive(users, r);
    r
  }

  function NamesAt(users: seq<User>, idx: seq<nat>): (r: seq<string>)
    requires forall k :: 0 <= k < |idx| ==> idx[k] < |users|
    ensures |r| == |idx|
    ensures forall k :: 0 <= k < |r| ==> r[k] == users[idx[k]].name
  {
    seq(|idx|, k requires 0 <= k < |idx| => users[idx[k]].name)
  }

  /** The names at exactly the active positions are exactly the active names. */
  lemma NamesAtActive(users: seq<User>, r: seq<string>)
    requires |r| == |ActiveIndices(users)|
    requires forall k :: 0 <= k < |r| ==> r[k] == users[ActiveIndices(users)[k]].name
    ensures forall n :: n in r <==>
              exists i :: 0 <= i < |users| && users[i].editcount > 0 && users[i].name == n
  {
    var idx := ActiveIndices(users);
    forall n | exists i :: 0 <= i < |users| && users[i].editcount > 0 && users[i].name == n
      ensures n in r
    {
      var i :| 0 <= i < |users| && users[i].editcount > 0 && users[i].name == n;
      var k :| 0 <= k < |idx| && idx[k] == i;
      assert r[k] == n;
    }
  }

  /** The names grow with the listing, one active user at a time. */
  lemma ActiveNamesSnoc(users: seq<User>)
    requires users != []
    ensures var p, u := users[..|users| - 1], users[|users| - 1];
            ActiveNames(users) == ActiveNames(p) + (if u.editcount > 0 then [u.name] else [])
  {
    var p, u := users[..|users| - 1], users[|users| - 1];
    var a, b := ActiveNames(users), ActiveNames(p);
    var ia, ib := ActiveIndices(users), ActiveIndices(p);
    assert ia == ib + (if u.editcount > 0 then [|p|] else []);
    forall k | 0 <= k < |b|
      ensures a[k] == b[k]
    {
      assert users[ib[k]] == p[ib[k]];
    }
  }

  /** A strictly increasing sequence of positions below `n` has at most `n`
      elements. */
  lemma {:induction false} IndicesBound(idx: seq<nat>, n: nat)
    requires forall k :: 0 <= k < |idx| ==> idx[k] < n
    requires forall k, l :: 0 <= k < l < |idx| ==> idx[k] < idx[l]
    ensures |idx| <= n
    decreases n
  {
    if idx != [] {
      var p := idx[..|idx| - 1];
      assert forall k :: 0 <= k < |p| ==> p[k] < idx[|idx| - 1] <= n - 1;
      IndicesBound(p, n - 1);
    }
  }

  /** The name of every listed user, in listing order. */
  function NamesOf(users: seq<User>): (r: seq<string>)
    ensures |r| == |users|
    ensures forall i :: 0 <= i < |users| ==> r[i] == users[i].name
  {
    seq(|users|, i requires 0 <= i < |users| => users[i].name)
  }

  /** The positions of active users named `n`. */
  ghost function ActiveAt(users: seq<User>, n: string): set<nat> {
    set i: nat | i < |users| && users[i].editcount > 0 && users[i].name == n
  }

  /** A name is kept once for every active listing of it. */
  lemma {:induction false} ActiveNamesMultiplicity(users: seq<User>, n: string)
    ensures Occurrences(ActiveNames(users), n) == |ActiveAt(users, n)|
  {
    if users == [] {
      assert ActiveAt(users, n) == {};
    } else {
      var p := users[..|users| - 1];
      var u := users[|users| - 1];
      ActiveNamesSnoc(users);
      ActiveNamesMultiplicity(p, n);
      ActiveAtSnoc(users, n);
      if u.editcount > 0 {
        assert multiset(ActiveNames(users)) == multiset(ActiveNames(p)) + multiset{u.name};
      }
    }
  }

  lemma ActiveAtSnoc(users: seq<User>, n: string)
    requires users != []
    ensures var p, u := users[..|users| - 1], users[|users| - 1];
            |ActiveAt(users, n)| ==
              |ActiveAt(p, n)| + (if u.editcount > 0 && u.name == n then 1 else 0)
  {
    var p, u := users[..|users| - 1], users[|users| - 1];
    var b := ActiveAt(p, n);
    ActiveAtSnocSet(users, n);
    if u.editcount > 0 && u.name == n {
      assert |p| !in b;
      assert |b + {|p|}| == |b| + 1;
    }
  }

  lemma ActiveAtSnocSet(users: seq<User>, n: string)
    requires users != []
    ensures var p, u := users[..|users| - 1], users[|users| - 1];
            ActiveAt(users, n) ==
              ActiveAt(p, n) + (if u.editcount > 0 && u.name == n then {|p|} else {})
  {
    var p := users[..|users| - 1];
    forall i: nat | i < |p|
      ensures users[i] == p[i]
    {
    }
  }

  /** With every name listed once, the last listed name is not among the
      names kept from the users before it. */
  lemma NameNotBefore(users: seq<User>)
    requires users != []
    requires Distinct(NamesOf(users))
    ensures users[|users| - 1].name !in ActiveNames(users[..|users| - 1])
  {
  }

  /** With every name listed once, every active name is kept once. */
  lemma {:induction false} ActiveNamesOnce(users: seq<User>, n: string)
    requires Distinct(NamesOf(users))
    ensures Occurrences(ActiveNames(users), n) <= 1
  {
    if users != [] {
      var p := users[..|users| - 1];
      var u := users[|users| - 1];
      ActiveNamesSnoc(users);
      ActiveNamesOnce(p, n);
      if u.editcount > 0 {
        assert multiset(ActiveNames(users)) == multiset(ActiveNames(p)) + multiset{u.name};
        if u.name == n {
          NameNotBefore(users);
        }
      }
    }
  }

  /** How many contributions of `cs` are to pages outside `excludes`. */
  function Kept(cs: seq<Contribution>, excludes: set<string>): (n: nat)
    ensures n <= |cs|
  {
    if cs == [] then 0
    else Kept(cs[..|cs| - 1], excludes) + (if cs[|cs| - 1].title in excludes then 0 else 1)
  }

  function Occurrences(names: seq<string>, u: string): nat {
    multiset(names)[u]
  }

  /** `names` without repetitions, each name kept at its first position. */
  function Dedup(names: seq<string>): (r: seq<string>)
    ensures forall n :: n in r <==> n in names
    ensures Distinct(r)
  {
    if names == [] then []
    else
      var p := Dedup(names[..|names| - 1]);
      var n := names[|names| - 1];
      if n in p then p else p + [n]
  }

  ghost predicate Distinct(s: seq<string>) {
    forall i, j :: 0 <= i < j < |s| ==> s[i] != s[j]
  }

  /** The names of `names` that keep at least one contribution. */
  function Contributors(names: seq<string>, contribsOf: string -> seq<Contribution>,
                        excludes: set<string>): (r: seq<string>)
    ensures forall n :: n in r <==> n in names && Kept(contribsOf(n), excludes) > 0
  {
    if names == [] then []
    else
      var p := Contributors(names[..|names| - 1], contribsOf, excludes);
      var n := names[|names| - 1];
      if Kept(contribsOf(n), excludes) > 0 then p + [n] else p
  }

  // The counter `active_users`: a dictionary whose items iterate in
  // insertion order, held as its sequence of items.

  function Users(d: seq<Entry>): (r: seq<string>)
    ensures |r| == |d|
    ensures forall i :: 0 <= i < |d| ==> r[i] == d[i].user
  {
    seq(|d|, i requires 0 <= i < |d| => d[i].user)
  }

  ghost predicate Positive(d: seq<Entry>) {
    forall i :: 0 <= i < |d| ==> d[i].count > 0
  }

  /** The position of the item for `k`, or -1 when there is none. */
  function IndexOf(d: seq<Entry>, k: string): (i: int)
    ensures -1 <= i < |d|
    ensures 0 <= i ==> d[i].user == k && forall j :: 0 <= j < i ==> d[j].user != k
    ensures i < 0 ==> forall j :: 0 <= j < |d| ==> d[j].user != k
  {
    if d == [] then -1
    else if d[0].user == k then 0
    else
      var i := IndexOf(d[1..], k);
      if i < 0 then -1 else i + 1
  }

  /** The count stored for `k`; zero when `k` has no item. */
  function Lookup(d: seq<Entry>, k: string): nat {
    var i := IndexOf(d, k);
    if i < 0 then 0 else d[i].count
  }

  /** `IndexOf` looks only at the users of the items. */
  lemma IndexOfUsers(d1: seq<Entry>, d2: seq<Entry>, k: string)
    requires Users(d1) == Users(d2)
    ensures IndexOf(d1, k) == IndexOf(d2, k)
  {
    var i1 := IndexOf(d1, k);
    var i2 := IndexOf(d2, k);
    assert forall j :: 0 <= j < |d1| ==> d1[j].user == Users(d1)[j] == d2[j].user;
  }

  /** Appending an item finds the old items first. */
  lemma IndexOfAppend(d: seq<Entry>, e: Entry, u: string)
    ensures IndexOf(d + [e], u) ==
              if 0 <= IndexOf(d, u) then IndexOf(d, u) else if e.user == u then |d| else -1
  {
    var i := IndexOf(d, u);
    var j := IndexOf(d + [e], u);
    if 0 <= i {
      assert (d + [e])[i] == d[i];
      assert forall m :: 0 <= m < i ==> (d + [e])[m] == d[m];
    } else {
      assert forall m :: 0 <= m < |d| ==> (d + [e])[m] == d[m];
      assert (d + [e])[|d|] == e;
    }
  }

  /** `try: active_users[user] += 1 except KeyError: active_users[user] = 1`:
      a known user's item is updated in place, a new user's item is
      appended, and only `k`'s count changes, by one. */
  function Bump(d: seq<Entry>, k: string): (r: seq<Entry>)
    ensures Users(r) == if k in Users(d) then Users(d) else Users(d) + [k]
    ensures forall u :: Lookup(r, u) == Lookup(d, u) + (if u == k then 1 else 0)
    ensures Positive(d) ==> Positive(r)
  {
    var i := IndexOf(d, k);
    if i < 0 then
      assert Users(d + [Entry(k, 1)]) == Users(d) + [k];
      assert forall u :: IndexOf(d + [Entry(k, 1)], u) == (if u == k then |d| else IndexOf(d, u)) by {
        forall u
          ensures IndexOf(d + [Entry(k, 1)], u) == (if u == k then |d| else IndexOf(d, u))
        {
          IndexOfAppend(d, Entry(k, 1), u);
        }
      }
      d + [Entry(k, 1)]
    else
      var r := d[i := Entry(k, d[i].count + 1)];
      assert Users(r) == Users(d);
      assert forall u :: IndexOf(r, u) == IndexOf(d, u) by {
        forall u
          ensures IndexOf(r, u) == IndexOf(d, u)
        {
          IndexOfUsers(r, d, u);
        }
      }
      r
  }

  /** The inner loop for one user: each contribution to a page outside
      `excludes` bumps that user's count once. */
  function CountUser(d: seq<Entry>, user: string, cs: seq<Contribution>,
                     excludes: set<string>): (r: seq<Entry>)
    ensures Users(r) ==
              if Kept(cs, excludes) > 0 && user !in Users(d) then Users(d) + [user] else Users(d)
    ensures forall u :: Lookup(r, u) == Lookup(d, u) + (if u == user then Kept(cs, excludes) else 0)
    ensures Positive(d) ==> Positive(r)
  {
    if cs == [] then d
    else
      var p := CountUser(d, user, cs[..|cs| - 1], excludes);
      if cs[|cs| - 1].title in excludes then p else Bump(p, user)
  }

  /** The outer loop: every name's contributions, in order. */
  function CountAll(names: seq<string>, contribsOf: string -> seq<Contribution>,
                    excludes: set<string>): (r: seq<Entry>)
    ensures Users(r) == Dedup(Contributors(names, contribsOf, excludes))
    ensures forall u :: Lookup(r, u) == Occurrences(names, u) * Kept(contribsOf(u), excludes)
    ensures Positive(r)
  {
    if names == [] then []
    else
      var d := CountAll(names[..|names| - 1], contribsOf, excludes);
      CountAllStep(names, d, contribsOf, excludes);
      CountUser(d, names[|names| - 1], contribsOf(names[|names| - 1]), excludes)
  }

  /** One turn of the outer loop keeps `CountAll`'s contract. */
  lemma CountAllStep(names: seq<string>, d: seq<Entry>,
                     contribsOf: string -> seq<Contribution>, excludes: set<string>)
    requires names != []
    requires Users(d) == Dedup(Contributors(names[..|names| - 1], contribsOf, excludes))
    requires forall u :: Lookup(d, u) == Occurrences(names[..|names| - 1], u) * Kept(contribsOf(u), excludes)
    requires Positive(d)
    ensures var r := CountUser(d, names[|names| - 1], contribsOf(names[|names| - 1]), excludes);
            && Users(r) == Dedup(Contributors(names, contribsOf, excludes))
            && (forall u :: Lookup(r, u) == Occurrences(names, u) * Kept(contribsOf(u), excludes))
            && Positive(r)
  {
    var n := names[|names| - 1];
    ContributorsSnoc(names, contribsOf, excludes);
    var r := CountUser(d, n, contribsOf(n), excludes);
    forall u
      ensures Lookup(r, u) == Occurrences(names, u) * Kept(contribsOf(u), excludes)
    {
      OccurrencesSnoc(names, u, Kept(contribsOf(u), excludes));
    }
  }

  /** The order of first contributors grows by the last name exactly when it
      is a new name that keeps a contribution. */
  lemma ContributorsSnoc(names: seq<string>,
                         contribsOf: string -> seq<Contribution>, excludes: set<string>)
    requires names != []
    ensures var n := names[|names| - 1];
            var cp := Dedup(Contributors(names[..|names| - 1], contribsOf, excludes));
            Dedup(Contributors(names, contribsOf, excludes)) ==
              if Kept(contribsOf(n), excludes) > 0 && n !in cp then cp + [n] else cp
  {
    var p, n := names[..|names| - 1], names[|names| - 1];
    var cp := Contributors(p, contribsOf, excludes);
    var cn := Contributors(names, contribsOf, excludes);
    if Kept(contribsOf(n), excludes) > 0 {
      assert cn == cp + [n];
      assert cn[..|cn| - 1] == cp;
    } else {
      assert cn == cp;
    }
  }

  lemma OccurrencesSnoc(names: seq<string>, u: string, k: nat)
    requires names != []
    ensures var p, n := names[..|names| - 1], names[|names| - 1];
            Occurrences(names, u) * k == Occurrences(p, u) * k + (if u == n then k else 0)
  {
    var p, n := names[..|names| - 1], names[|names| - 1];
    assert names == p + [n];
    assert multiset(names) == multiset(p) + multiset{n};
    if u == n {
      assert Occurrences(names, u) == Occurrences(p, u) + 1;
      assert (Occurrences(p, u) + 1) * k == Occurrences(p, u) * k + k;
    }
  }

  /** The pairs `alltime` prints, in printing order. */
  function AllTimeRanking(users: seq<User>, contribsOf: string -> seq<Contribution>,
                          excludes: set<string>): seq<Entry>
  {
    SortByCount(CountAll(ActiveNames(users), contribsOf, excludes))
  }

  /** In a dictionary with distinct users, every item holds its user's count. */
  lemma LookupItem(d: seq<Entry>, e: Entry)
    requires Distinct(Users(d))
    requires e in d
    ensures Lookup(d, e.user) == e.count
  {
    var i :| 0 <= i < |d| && d[i] == e;
    var j := IndexOf(d, e.user);
    assert Users(d)[i] == e.user;
  }

  /** A counter with distinct users is determined by its sequence of users
      and their counts. */
  lemma ItemsDetermined(d: seq<Entry>, expected: seq<Entry>)
    requires Users(d) == Users(expected)
    requires Distinct(Users(d))
    requires forall i :: 0 <= i < |expected| ==> Lookup(d, expected[i].user) == expected[i].count
    ensures d == expected
  {
    forall i | 0 <= i < |d|
      ensures d[i] == expected[i]
    {
      LookupItem(d, d[i]);
    }
  }

  /** Reordering items keeps the set of users. */
  lemma PermutedUsers(r: seq<Entry>, d: seq<Entry>, u: string)
    requires multiset(r) == multiset(d)
    ensures u in Users(r) <==> u in Users(d)
  {
    if u in Users(r) {
      var i :| 0 <= i < |r| && Users(r)[i] == u;
      assert r[i] in multiset(d);
      var j :| 0 <= j < |d| && d[j] == r[i];
      assert Users(d)[j] == u;
    }
    if u in Users(d) {
      var j :| 0 <= j < |d| && Users(d)[j] == u;
      assert d[j] in multiset(r);
      var i :| 0 <= i < |r| && r[i] == d[j];
      assert Users(r)[i] == u;
    }
  }

  /** Reordering the counter's items keeps each user's count. */
  lemma PermutedCounts(r: seq<Entry>, names: seq<string>,
                       contribsOf: string -> seq<Contribution>, excludes: set<string>)
    requires multiset(r) == multiset(CountAll(names, contribsOf, excludes))
    ensures forall e :: e in r ==>
              0 < e.count == Occurrences(names, e.user) * Kept(contribsOf(e.user), excludes)
  {
    var d := CountAll(names, contribsOf, excludes);
    forall e | e in r
      ensures 0 < e.count == Occurrences(names, e.user) * Kept(contribsOf(e.user), excludes)
    {
      assert e in multiset(d);
      LookupItem(d, e);
      var i :| 0 <= i < |d| && d[i] == e;
    }
  }

  /** What `alltime` reports. A user is ranked exactly when the listing has
      an account of that name with a positive edit count and at least one of
      its contributions is to a page outside `excludes`; the ranking has one
      pair per such user; each pair's count is the number of that user's
      contributions outside `excludes` (times the number of times the
      listing repeats the name); counts never increase down the ranking; and
      the users of each count appear in the dictionary's insertion order,
      which is the order in which they first contributed in the listing. */
  lemma AllTimeRankingSpec(users: seq<User>, contribsOf: string -> seq<Contribution>,
                           excludes: set<string>)
    ensures var r := AllTimeRanking(users, contribsOf, excludes);
            var names := ActiveNames(users);
            var d := CountAll(names, contribsOf, excludes);
            && NonIncreasing(r)
            && (forall u :: u in Users(r) <==>
                  (exists i :: 0 <= i < |users| && users[i].editcount > 0 && users[i].name == u)
                  && Kept(contribsOf(u), excludes) > 0)
            && |r| == |Dedup(Contributors(names, contribsOf, excludes))|
            && (forall e :: e in r ==>
                  0 < e.count == Occurrences(names, e.user) * Kept(contribsOf(e.user), excludes))
            && Users(d) == Dedup(Contributors(names, contribsOf, excludes))
            && (forall c :: WithCount(r, c) == WithCount(d, c))
  {
    var r := AllTimeRanking(users, contribsOf, excludes);
    var names := ActiveNames(users);
    var d := CountAll(names, contribsOf, excludes);
    assert |r| == |multiset(r)| == |multiset(d)| == |d|;
    PermutedCounts(r, names, contribsOf, excludes);
    forall u
      ensures u in Users(r) <==> u in Users(d)
    {
      PermutedUsers(r, d, u);
    }
  }

  /** When every listed name is distinct, each ranked user's count is the
      number of their contributions outside the excluded pages. */
  lemma DistinctListingCounts(users: seq<User>, contribsOf: string -> seq<Contribution>,
                              excludes: set<string>)
    requires Distinct(NamesOf(users))
    ensures forall e :: e in AllTimeRanking(users, contribsOf, excludes) ==>
              e.count == Kept(contribsOf(e.user), excludes)
  {
    var names := ActiveNames(users);
    AllTimeRankingSpec(users, contribsOf, excludes);
    forall n
      ensures Occurrences(names, n) <= 1
    {
      ActiveNamesOnce(users, n);
    }
    CountsOfSingleListings(AllTimeRanking(users, contribsOf, excludes), names, contribsOf, excludes);
  }

  lemma CountsOfSingleListings(r: seq<Entry>, names: seq<string>,
                               contribsOf: string -> seq<Contribution>, excludes: set<string>)
    requires forall e :: e in r ==>
               0 < e.count == Occurrences(names, e.user) * Kept(contribsOf(e.user), excludes)
    requires forall n :: Occurrences(names, n) <= 1
    ensures forall e :: e in r ==> e.count == Kept(contribsOf(e.user), excludes)
  {
    forall e | e in r
      ensures e.count == Kept(contribsOf(e.user), excludes)
    {
      var o, k := Occurrences(names, e.user), Kept(contribsOf(e.user), excludes);
      assert 0 < e.count == o * k;
      assert o == 1;
    }
  }
}
