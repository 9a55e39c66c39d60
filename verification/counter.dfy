/** String-keyed counters: the `stats['years']`, `stats['months']` and
    `stats['weeks']` dictionaries of the per-user pass, together with a
    reference definition (`Tally`) and their sum (`Total`). */
module Counter {

  type Counts = map<string, nat>

  /** The count stored under `k`; an absent key means zero. */
  function Get(m: Counts, k: string): nat {
    if k in m then m[k] else 0
  }

  /** Get-or-zero, then increment: `try: d[k] += 1 except KeyError: d[k] = 1`. */
  function Inc(m: Counts, k: string): (r: Counts)
    ensures r.Keys == m.Keys + {k}
    ensures k !in m ==> r[k] == 1
    ensures k in m ==> r[k] == m[k] + 1
    ensures forall j :: j in m && j != k ==> r[j] == m[j]
  {
    m[k := Get(m, k) + 1]
  }

  /** Reference counter: every key of `ks` mapped to its number of occurrences. */
  function Tally(ks: seq<string>): Counts {
    map k | k in ks :: multiset(ks)[k]
  }

  /** Counting one more key with `Inc` is tallying the extended sequence. */
  lemma TallySnoc(ks: seq<string>, k: string)
    ensures Tally(ks + [k]) == Inc(Tally(ks), k)
  {
    var l := Tally(ks + [k]);
    var r := Inc(Tally(ks), k);
    assert multiset(ks + [k]) == multiset(ks) + multiset{k};
    assert l.Keys == r.Keys;
    forall j | j in l
      ensures l[j] == r[j]
    {
    }
  }

  /** The sum of all counts of a counter. */
  ghost function Total(m: Counts): nat
    decreases |m|
  {
    if m == map[] then 0
    else
      var k :| k in m;
      assert (m - {k}).Keys == m.Keys - {k};
      m[k] + Total(m - {k})
  }

  /** Any key can be split off the sum, whichever key `Total` picked. */
  lemma {:induction false} TotalRemove(m: Counts, k: string)
    requires k in m
    ensures Total(m) == m[k] + Total(m - {k})
    decreases |m|
  {
    var j :| j in m && Total(m) == m[j] + Total(m - {j});
    if j != k {
      var mj := m - {j};
      var mk := m - {k};
      assert mj.Keys == m.Keys - {j};
      assert mk.Keys == m.Keys - {k};
      TotalRemove(mj, k);
      TotalRemove(mk, j);
      assert mj - {k} == mk - {j};
    }
  }

  /** Every `Inc` adds exactly one to the sum of the counter. */
  lemma TotalInc(m: Counts, k: string)
    ensures Total(Inc(m, k)) == Total(m) + 1
  {
    var r := Inc(m, k);
    TotalRemove(r, k);
    assert r - {k} == m - {k};
    if k in m {
      TotalRemove(m, k);
    } else {
      assert m - {k} == m;
    }
  }

  /** The counts of a tally add up to the number of tallied keys. */
  lemma {:induction false} TotalTally(ks: seq<string>)
    ensures Total(Tally(ks)) == |ks|
    decreases |ks|
  {
    if ks == [] {
      assert Tally(ks) == map[];
    } else {
      var p := ks[..|ks| - 1];
      var k := ks[|ks| - 1];
      assert ks == p + [k];
      TallySnoc(p, k);
      TotalTally(p);
      TotalInc(Tally(p), k);
    }
  }
}
