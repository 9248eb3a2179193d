/** The character-count table that CodingTree builds from a message, and the
    arithmetic over such tables (sums of values). */
module Frequencies {

  /** The reference count table of a message: one entry per distinct
      character, holding its number of occurrences. */
  function Counts(s: string): map<char, int> {
    map c | c in s :: multiset(s)[c]
  }

  /** The value of `c` in `m`, 0 when `c` has no entry. */
  function Get(m: map<char, int>, c: char): int {
    if c in m then m[c] else 0
  }

  /** The table `m` with the counts of `n` added on top. */
  function Merge(m: map<char, int>, n: map<char, int>): map<char, int> {
    map c | c in m.Keys + n.Keys :: Get(m, c) + Get(n, c)
  }

  /** The message holds at least two different characters. */
  predicate TwoDistinct(s: string) {
    exists i, j :: 0 <= i < |s| && 0 <= j < |s| && s[i] != s[j]
  }

  /** No character occurs twice. */
  predicate NoDup(s: seq<char>) {
    forall i, j :: 0 <= i < j < |s| ==> s[i] != s[j]
  }

  /** `order` lists every key exactly once: an iteration order of a key set. */
  predicate Enumerates(order: seq<char>, keys: set<char>) {
    NoDup(order) && forall c :: c in order <==> c in keys
  }

  /** An enumeration holds each key exactly once. */
  lemma {:induction false} EnumeratesMultiset(order: seq<char>, keys: set<char>)
    requires Enumerates(order, keys)
    ensures multiset(order) == multiset(keys)
    decreases |order|
  {
    if order == [] {
      assert keys == {};
    } else {
      var x := order[0];
      assert order == [x] + order[1..];
      assert x !in order[1..];
      assert Enumerates(order[1..], keys - {x});
      EnumeratesMultiset(order[1..], keys - {x});
      assert keys == (keys - {x}) + {x};
    }
  }

  /** The sum of `m`'s values over the keys `ks`. */
  ghost function SumOver(m: map<char, int>, ks: set<char>): int
    requires ks <= m.Keys
    decreases ks
  {
    if ks == {} then 0 else var k :| k in ks; m[k] + SumOver(m, ks - {k})
  }

  /** The sum of all values of `m`. */
  ghost function Total(m: map<char, int>): int {
    SumOver(m, m.Keys)
  }

  /** Any key can be taken out of the sum first. */
  lemma {:induction false} SumOverRemove(m: map<char, int>, ks: set<char>, k: char)
    requires ks <= m.Keys && k in ks
    ensures SumOver(m, ks) == m[k] + SumOver(m, ks - {k})
    decreases ks
  {
    var j :| j in ks && SumOver(m, ks) == m[j] + SumOver(m, ks - {j});
    if j != k {
      SumOverRemove(m, ks - {j}, k);
      SumOverRemove(m, ks - {k}, j);
      assert ks - {j} - {k} == ks - {k} - {j};
    }
  }

  /** The sum over `ks` only depends on the values at `ks`. */
  lemma {:induction false} SumOverAgree(m: map<char, int>, n: map<char, int>, ks: set<char>)
    requires ks <= m.Keys && ks <= n.Keys
    requires forall k :: k in ks ==> m[k] == n[k]
    ensures SumOver(m, ks) == SumOver(n, ks)
    decreases ks
  {
    if ks != {} {
      var k :| k in ks;
      SumOverRemove(m, ks, k);
      SumOverRemove(n, ks, k);
      SumOverAgree(m, n, ks - {k});
    }
  }

  /** Setting one entry changes the total by the difference at that entry. */
  lemma TotalUpdate(m: map<char, int>, k: char, v: int)
    ensures Total(m[k := v]) == Total(m) - Get(m, k) + v
  {
    var m' := m[k := v];
    SumOverRemove(m', m'.Keys, k);
    assert m'.Keys - {k} == m.Keys - {k};
    SumOverAgree(m', m, m.Keys - {k});
    if k in m {
      SumOverRemove(m, m.Keys, k);
    } else {
      assert m.Keys - {k} == m.Keys;
    }
  }

  /** One more character at the end of the message bumps its count by one. */
  lemma CountsSnoc(s: string, c: char)
    ensures Counts(s + [c]) == Counts(s)[c := Get(Counts(s), c) + 1]
  {
    assert multiset(s + [c]) == multiset(s) + multiset{c};
    var a, b := Counts(s + [c]), Counts(s)[c := Get(Counts(s), c) + 1];
    forall d | true
      ensures d in a <==> d in b
      ensures d in a ==> a[d] == b[d]
    {
      assert d in s + [c] <==> d in s || d == c;
    }
  }

  /** The counts of a non-empty message are those of its tail with its first
      character bumped by one. */
  lemma CountsCons(s: string)
    requires s != []
    ensures Counts(s) == Counts(s[1..])[s[0] := Get(Counts(s[1..]), s[0]) + 1]
  {
    assert s == [s[0]] + s[1..];
    assert multiset(s) == multiset{s[0]} + multiset(s[1..]);
    var a, b := Counts(s), Counts(s[1..])[s[0] := Get(Counts(s[1..]), s[0]) + 1];
    forall d | true
      ensures d in a <==> d in b
      ensures d in a ==> a[d] == b[d]
    {
      assert d in s <==> d in s[1..] || d == s[0];
    }
  }

  /** The counts of a message add up to its length. */
  lemma {:induction false} TotalCounts(s: string)
    ensures Total(Counts(s)) == |s|
    decreases |s|
  {
    if s == [] {
      assert Counts(s) == map[];
    } else {
      var init, c := s[..|s| - 1], s[|s| - 1];
      assert s == init + [c];
      TotalCounts(init);
      CountsSnoc(init, c);
      TotalUpdate(Counts(init), c, Get(Counts(init), c) + 1);
    }
  }

  /** Bumping one count of the added table bumps the same count of the merge. */
  lemma MergeBump(m: map<char, int>, n: map<char, int>, c: char)
    ensures Merge(m, n[c := Get(n, c) + 1]) == Merge(m, n)[c := Get(Merge(m, n), c) + 1]
  {
    var a, b := Merge(m, n[c := Get(n, c) + 1]), Merge(m, n)[c := Get(Merge(m, n), c) + 1];
    assert a.Keys == b.Keys;
  }

  /** The table `m` after counting the characters of `s` one by one, in
      order: each adds one to its entry, creating the entry at 1. */
  function Tally(m: map<char, int>, s: string): map<char, int>
    decreases |s|
  {
    if s == [] then m
    else
      var t := Tally(m, s[..|s| - 1]);
      var c := s[|s| - 1];
      t[c := Get(t, c) + 1]
  }

  /** Counting one character at a time adds the message's count table on
      top of the starting table. */
  lemma {:induction false} TallyMerges(m: map<char, int>, s: string)
    ensures Tally(m, s) == Merge(m, Counts(s))
    decreases |s|
  {
    if s == [] {
      assert Counts(s) == map[];
    } else {
      var init, c := s[..|s| - 1], s[|s| - 1];
      assert s == init + [c];
      var before := Tally(m, init);
      assert Tally(m, s) == before[c := Get(before, c) + 1];
      TallyMerges(m, init);
      MergeSnoc(m, init, c);
    }
  }

  /** Adding the counts of a message with one more character at its end
      bumps that character's entry by one. */
  lemma MergeSnoc(m: map<char, int>, s: string, c: char)
    ensures Merge(m, Counts(s + [c])) == Merge(m, Counts(s))[c := Get(Merge(m, Counts(s)), c) + 1]
  {
    CountsSnoc(s, c);
    MergeBump(m, Counts(s), c);
  }

  /** Merging a table into the empty table gives that table. */
  lemma MergeEmpty(m: map<char, int>)
    ensures Merge(map[], m) == m
  {
  }

  /** A message has two different characters exactly when its count table
      has at least two entries. */
  lemma TwoDistinctCounts(s: string)
    ensures TwoDistinct(s) <==> |Counts(s)| >= 2
  {
    if TwoDistinct(s) {
      var i, j :| 0 <= i < |s| && 0 <= j < |s| && s[i] != s[j];
      TwoKeys(Counts(s).Keys, s[i], s[j]);
    }
    if |Counts(s)| >= 2 {
      var a, b := TwoMembers(Counts(s).Keys);
      assert a in s && b in s;
      var i :| 0 <= i < |s| && s[i] == a;
      var j :| 0 <= j < |s| && s[j] == b;
    }
  }

  /** A set with two different members has at least two elements. */
  lemma TwoKeys(keys: set<char>, a: char, b: char)
    requires a in keys && b in keys && a != b
    ensures |keys| >= 2
  {
    var others := keys - {a};
    assert b in others;
    assert keys == others + {a};
  }

  /** A set of at least two elements has two different members. */
  lemma TwoMembers(keys: set<char>) returns (a: char, b: char)
    requires |keys| >= 2
    ensures a in keys && b in keys && a != b
  {
    a :| a in keys;
    assert keys == {a} + (keys - {a});
    b :| b in keys - {a};
  }
}
