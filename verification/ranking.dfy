/** The all-time ranking's sort: `sorted(pairs, key=lambda x: x[1],
    reverse=True)`, a stable sort by count, largest first. */
module Ranking {

  /** One `(user, count)` pair of the all-time counter. */
  datatype Entry = Entry(user: string, count: nat)

  ghost predicate NonIncreasing(s: seq<Entry>) {
    forall i, j :: 0 <= i < j < |s| ==> s[i].count >= s[j].count
  }

  /** The entries of `s` whose count is `c`, in their order in `s`. */
  function WithCount(s: seq<Entry>, c: nat): seq<Entry> {
    if s == [] then []
    else (if s[0].count == c then [s[0]] else []) + WithCount(s[1..], c)
  }

  /** Puts `e` in front of the first entry of `t` whose count is not larger. */
  function Insert(e: Entry, t: seq<Entry>): seq<Entry> {
    if t == [] || t[0].count <= e.count then [e] + t
    else [t[0]] + Insert(e, t[1..])
  }

  /** Insertion sort, inserting each entry in front of the (already sorted)
      entries that follow it, so that equal counts keep their input order. */
  function SortByCount(s: seq<Entry>): (r: seq<Entry>)
    ensures NonIncreasing(r)
    ensures multiset(r) == multiset(s)
    ensures forall c :: WithCount(r, c) == WithCount(s, c)
  {
    if s == [] then []
    else
      var t := SortByCount(s[1..]);
      InsertSorted(s[0], t);
      InsertPermutes(s[0], t);
      InsertStable(s[0], t);
      assert s == [s[0]] + s[1..];
      Insert(s[0], t)
  }

  lemma {:induction false} InsertSorted(e: Entry, t: seq<Entry>)
    requires NonIncreasing(t)
    ensures NonIncreasing(Insert(e, t))
    decreases |t|
  {
    if t != [] && t[0].count > e.count {
      InsertSorted(e, t[1..]);
      InsertHead(e, t[1..]);
    }
  }

  /** The first entry after an insertion is `e` or the old first entry. */
  lemma InsertHead(e: Entry, t: seq<Entry>)
    ensures Insert(e, t) != []
    ensures Insert(e, t)[0] == e || (t != [] && Insert(e, t)[0] == t[0])
  {
  }

  lemma {:induction false} InsertPermutes(e: Entry, t: seq<Entry>)
    ensures multiset(Insert(e, t)) == multiset{e} + multiset(t)
    decreases |t|
  {
    if t != [] && t[0].count > e.count {
      InsertPermutes(e, t[1..]);
      assert t == [t[0]] + t[1..];
    }
  }

  /** Inserting into a sorted sequence puts `e` first among the entries of
      its own count and leaves the other counts' entries as they were. */
  lemma {:induction false} InsertStable(e: Entry, t: seq<Entry>)
    requires NonIncreasing(t)
    ensures forall c ::
              WithCount(Insert(e, t), c) == (if e.count == c then [e] else []) + WithCount(t, c)
    decreases |t|
  {
    if t == [] || t[0].count <= e.count {
      forall c
        ensures WithCount(Insert(e, t), c) == (if e.count == c then [e] else []) + WithCount(t, c)
      {
        assert ([e] + t)[1..] == t;
      }
    } else {
      InsertStable(e, t[1..]);
      forall c
        ensures WithCount(Insert(e, t), c) == (if e.count == c then [e] else []) + WithCount(t, c)
      {
        var r := Insert(e, t);
        assert r[0] == t[0] && r[1..] == Insert(e, t[1..]);
        if t[0].count == c {
          // t is sorted, so every entry of t has a count of at most t[0]'s,
          // which exceeds e's: e cannot have count c here.
          assert e.count != c;
        }
      }
    }
  }

  /** A non-empty sequence has at least one entry of its first entry's count. */
  lemma HeadCount(s: seq<Entry>)
    requires s != []
    ensures WithCount(s, s[0].count) == [s[0]] + WithCount(s[1..], s[0].count)
  {
  }

  /** A non-increasing sequence has no entry whose count exceeds its first's. */
  lemma {:induction false} NoneAboveHead(s: seq<Entry>, c: nat)
    requires NonIncreasing(s)
    requires s != [] && s[0].count < c
    ensures WithCount(s, c) == []
    decreases |s|
  {
    if |s| > 1 {
      NoneAboveHead(s[1..], c);
    }
  }

  /** The stable descending order is unique: two non-increasing sequences
      that hold the same entries of every count, in the same order, are
      equal. So any stable sort (Python's Timsort included) yields
      `SortByCount`'s result. */
  lemma {:induction false} SortedUnique(r1: seq<Entry>, r2: seq<Entry>)
    requires NonIncreasing(r1) && NonIncreasing(r2)
    requires forall c :: WithCount(r1, c) == WithCount(r2, c)
    ensures r1 == r2
    decreases |r1|
  {
    if r1 == [] || r2 == [] {
      if r1 != [] {
        HeadCount(r1);
      }
      if r2 != [] {
        HeadCount(r2);
      }
    } else {
      var c1 := r1[0].count;
      var c2 := r2[0].count;
      HeadCount(r1);
      HeadCount(r2);
      if c1 < c2 {
        NoneAboveHead(r1, c2);
      } else if c2 < c1 {
        NoneAboveHead(r2, c1);
      }
      assert c1 == c2;
      assert r1[0] == r2[0];
      forall c
        ensures WithCount(r1[1..], c) == WithCount(r2[1..], c)
      {
        var h := if c1 == c then [r1[0]] else [];
        assert WithCount(r1, c) == h + WithCount(r1[1..], c);
        assert WithCount(r2, c) == h + WithCount(r2[1..], c);
        assert (h + WithCount(r1[1..], c))[|h|..] == WithCount(r1[1..], c);
        assert (h + WithCount(r2[1..], c))[|h|..] == WithCount(r2[1..], c);
      }
      SortedUnique(r1[1..], r2[1..]);
      assert r1 == [r1[0]] + r1[1..];
      assert r2 == [r2[0]] + r2[1..];
    }
  }
}
