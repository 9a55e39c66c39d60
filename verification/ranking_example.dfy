/** The all-time ranking of three users listed as Carol, Alice, Bob, with
    two, five and five contributions in the window: the ranking is Alice,
    Bob, Carol, the tie between Alice and Bob kept in listing order. */
module RankingExample {
  import opened Records
  import opened Ranking
  import opened AllTime

  const Edit := Contribution("Sandbox", 1, 1, "", 2020, 1, 1)
  const Listing := [User("Carol", 2), User("Alice", 5), User("Bob", 5)]

  /** Carol has two edits in the window, Alice and Bob five each. */
  function EditsOf(n: string): seq<Contribution> {
    if n == "Carol" then Copies(2) else Copies(5)
  }

  function Copies(n: nat): seq<Contribution> {
    seq(n, _ => Edit)
  }

  lemma {:induction false} KeptCopies(n: nat)
    ensures Kept(Copies(n), {}) == n
  {
    if n > 0 {
      KeptCopies(n - 1);
      assert Copies(n)[..n - 1] == Copies(n - 1);
    }
  }

  lemma ActiveExample()
    ensures ActiveNames(Listing) == ["Carol", "Alice", "Bob"]
  {
    var users := Listing;
    assert users[..1][..0] == [] && users[..2][..1] == users[..1] && users[..2] == users[..3][..2];
    assert ActiveNames(users[..1]) == ["Carol"];
    assert ActiveNames(users[..2]) == ["Carol", "Alice"];
    assert users[..3] == users;
  }

  lemma ContributorsExample()
    ensures Contributors(["Carol", "Alice", "Bob"], EditsOf, {}) == ["Carol", "Alice", "Bob"]
  {
    var names := ["Carol", "Alice", "Bob"];
    KeptCopies(2);
    KeptCopies(5);
    assert names[..1][..0] == [] && names[..2][..1] == names[..1] && names[..2] == names[..3][..2];
    assert names[..3] == names;
    assert Contributors(names[..1], EditsOf, {}) == ["Carol"];
    assert Contributors(names[..2], EditsOf, {}) == ["Carol", "Alice"];
  }

  lemma DedupExample()
    ensures Dedup(["Carol", "Alice", "Bob"]) == ["Carol", "Alice", "Bob"]
  {
    var names := ["Carol", "Alice", "Bob"];
    assert names[..1][..0] == [] && names[..2][..1] == names[..1] && names[..2] == names[..3][..2];
    assert names[..3] == names;
    assert Dedup(names[..1]) == ["Carol"];
    assert Dedup(names[..2]) == ["Carol", "Alice"];
  }

  // The lemmas below take the name list as a parameter pinned by a
  // `requires` rather than writing the literal in their statements: that
  // keeps the literal's unfoldings out of the solver's context.

  lemma LookupExample(names: seq<string>, u: string)
    requires names == ["Carol", "Alice", "Bob"]
    requires u in names
    ensures Lookup(CountAll(names, EditsOf, {}), u) == if u == "Carol" then 2 else 5
  {
    var k := if u == "Carol" then 2 else 5;
    KeptCopies(k);
    assert EditsOf(u) == Copies(k);
    assert multiset(names)[u] == 1;
  }

  /** The counter after the loops, in insertion order. */
  const Counted := [Entry("Carol", 2), Entry("Alice", 5), Entry("Bob", 5)]

  lemma UsersFact(names: seq<string>)
    requires names == ["Carol", "Alice", "Bob"]
    ensures Users(CountAll(names, EditsOf, {})) == Users(Counted)
  {
    ContributorsExample();
    DedupExample();
    assert Users(Counted) == names;
  }

  lemma CountsFact(names: seq<string>)
    requires names == ["Carol", "Alice", "Bob"]
    ensures var d := CountAll(names, EditsOf, {});
            Lookup(d, "Carol") == 2 && Lookup(d, "Alice") == 5 && Lookup(d, "Bob") == 5
  {
    LookupExample(names, "Carol");
    LookupExample(names, "Alice");
    LookupExample(names, "Bob");
  }

  lemma CountedFromFacts(d: seq<Entry>)
    requires Users(d) == Users(Counted)
    requires Lookup(d, "Carol") == 2 && Lookup(d, "Alice") == 5 && Lookup(d, "Bob") == 5
    ensures d == Counted
  {
    assert Users(Counted) == ["Carol", "Alice", "Bob"];
    ItemsDetermined(d, Counted);
  }

  lemma CounterExample(names: seq<string>)
    requires names == ["Carol", "Alice", "Bob"]
    ensures CountAll(names, EditsOf, {}) == Counted
  {
    UsersFact(names);
    CountsFact(names);
    CountedFromFacts(CountAll(names, EditsOf, {}));
  }

  lemma SortSingle(e: Entry)
    ensures SortByCount([e]) == [e]
  {
    assert [e][1..] == [];
  }

  lemma SortPairInOrder(a: Entry, b: Entry)
    requires b.count <= a.count
    ensures SortByCount([a, b]) == [a, b]
  {
    assert [a, b][1..] == [b];
    SortSingle(b);
  }

  lemma InsertBelowPair(c: Entry, a: Entry, b: Entry)
    requires c.count < b.count && c.count < a.count
    ensures Insert(c, [a, b]) == [a, b, c]
  {
    assert [a, b][1..] == [b];
    assert [b][1..] == [];
    assert Insert(c, [b]) == [b, c];
    assert Insert(c, [a, b]) == [a] + [b, c];
  }

  lemma SortExample()
    ensures SortByCount([Entry("Carol", 2), Entry("Alice", 5), Entry("Bob", 5)]) ==
              [Entry("Alice", 5), Entry("Bob", 5), Entry("Carol", 2)]
  {
    SortLowFirst(Entry("Carol", 2), Entry("Alice", 5), Entry("Bob", 5));
  }

  lemma SortLowFirst(c: Entry, a: Entry, b: Entry)
    requires c.count < b.count <= a.count
    ensures SortByCount([c, a, b]) == [a, b, c]
  {
    var s := [c, a, b];
    assert s[1..] == [a, b];
    SortPairInOrder(a, b);
    InsertBelowPair(c, a, b);
    assert SortByCount(s) == Insert(s[0], SortByCount(s[1..]));
  }

  /** The whole pass on the example listing. */
  lemma RankingTiesExample()
    ensures AllTimeRanking(Listing, EditsOf, {}) ==
              [Entry("Alice", 5), Entry("Bob", 5), Entry("Carol", 2)]
  {
    ActiveExample();
    CounterExample(ActiveNames(Listing));
    SortExample();
  }
}
