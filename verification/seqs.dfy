/** Sequence helpers that mirror Python idioms used by the bot: the
    "unique, stable" loop, `sorted(...)` on integers, `sorted(set)`, and the sum
    of a dictionary's values over a list of its keys. */
module Seqs {

  predicate Distinct<T(==)>(s: seq<T>) {
    forall i, j | 0 <= i < j < |s| :: s[i] != s[j]
  }

  /* ---------- stable de-duplication ---------- */

  /** The loop `for x in s: if x not in seen: out.append(x); seen.add(x)`. */
  function DedupFrom<T(==,!new)>(s: seq<T>, seen: set<T>): (r: seq<T>)
    ensures Distinct(r)
    ensures forall x :: x in r <==> x in s && x !in seen
    ensures |r| <= |s|
  {
    if s == [] then []
    else if s[0] in seen then DedupFrom(s[1..], seen)
    else [s[0]] + DedupFrom(s[1..], seen + {s[0]})
  }

  /** First occurrences of the elements of `s`, in order. */
  function Dedup<T(==,!new)>(s: seq<T>): (r: seq<T>)
    ensures Distinct(r)
    ensures forall x :: x in r <==> x in s
    ensures |r| <= |s|
  {
    DedupFrom(s, {})
  }

  lemma {:induction false} DedupFromSnoc<T(!new)>(a: seq<T>, x: T, seen: set<T>)
    ensures DedupFrom(a + [x], seen) ==
      if x in a || x in seen then DedupFrom(a, seen) else DedupFrom(a, seen) + [x]
  {
    if a == [] {
      assert a + [x] == [x];
    } else {
      assert (a + [x])[1..] == a[1..] + [x];
      if a[0] in seen {
        DedupFromSnoc(a[1..], x, seen);
      } else {
        DedupFromSnoc(a[1..], x, seen + {a[0]});
      }
    }
  }

  /** Appending an element extends the de-duplicated list by that element
      exactly when it is new; with `Dedup([]) == []` this determines `Dedup`. */
  lemma DedupSnoc<T(!new)>(a: seq<T>, x: T)
    ensures Dedup(a + [x]) == if x in a then Dedup(a) else Dedup(a) + [x]
  {
    DedupFromSnoc(a, x, {});
  }

  /** The elements of a sequence, as a set. */
  function Elems<T(!new)>(s: seq<T>): (r: set<T>)
    ensures forall x :: x in r <==> x in s
  {
    set x | x in s
  }

  /** De-duplicating a concatenation: the second part is de-duplicated against
      everything the first part has shown. */
  lemma {:induction false} DedupFromConcat<T(!new)>(a: seq<T>, b: seq<T>, seen: set<T>)
    ensures DedupFrom(a + b, seen) == DedupFrom(a, seen) + DedupFrom(b, seen + Elems(a))
  {
    if a == [] {
      assert a + b == b;
      assert seen + Elems(a) == seen;
    } else {
      assert (a + b)[1..] == a[1..] + b;
      if a[0] in seen {
        DedupFromConcat(a[1..], b, seen);
        ElemsCons(a, seen);
      } else {
        DedupFromConcat(a[1..], b, seen + {a[0]});
        ElemsCons(a, seen);
      }
    }
  }

  lemma ElemsCons<T(!new)>(a: seq<T>, seen: set<T>)
    requires a != []
    ensures seen + Elems(a) == seen + {a[0]} + Elems(a[1..])
    ensures a[0] in seen ==> seen + Elems(a) == seen + Elems(a[1..])
  {
    assert a == [a[0]] + a[1..];
    assert Elems(a) == {a[0]} + Elems(a[1..]);
  }

  /** A sequence without repeats has as many elements as its set. */
  lemma DistinctTail<T>(s: seq<T>)
    requires s != [] && Distinct(s)
    ensures Distinct(s[1..])
  {
    var t := s[1..];
    forall i, j | 0 <= i < j < |t| ensures t[i] != t[j] {
      assert t[i] == s[i + 1] && t[j] == s[j + 1];
    }
  }

  lemma {:induction false} DistinctCardinality<T>(s: seq<T>)
    requires Distinct(s)
    ensures |set x | x in s| == |s|
  {
    if s != [] {
      var t := s[1..];
      assert Distinct(t) by {
        forall i, j | 0 <= i < j < |t| ensures t[i] != t[j] {
          assert t[i] == s[i + 1] && t[j] == s[j + 1];
        }
      }
      DistinctCardinality(t);
      assert s[0] !in t;
      assert (set x | x in s) == {s[0]} + (set x | x in t);
    }
  }

  lemma {:induction false} DedupFromOfDistinct<T(!new)>(s: seq<T>, seen: set<T>)
    requires Distinct(s)
    requires forall x | x in s :: x !in seen
    ensures DedupFrom(s, seen) == s
  {
    if s != [] {
      assert s[0] !in s[1..];
      DedupFromOfDistinct(s[1..], seen + {s[0]});
    }
  }

  lemma DedupOfDistinct<T(!new)>(s: seq<T>)
    requires Distinct(s)
    ensures Dedup(s) == s
  {
    DedupFromOfDistinct(s, {});
  }

  /* ---------- sorting integers ---------- */

  predicate SortedInts(s: seq<int>) {
    forall i, j | 0 <= i < j < |s| :: s[i] <= s[j]
  }

  predicate StrictlyIncreasing(s: seq<int>) {
    forall i, j | 0 <= i < j < |s| :: s[i] < s[j]
  }

  /** In an ascending list a smaller element sits at an earlier place. */
  lemma IncreasingOrder(s: seq<int>, i: nat, k: nat)
    requires StrictlyIncreasing(s) && i < |s| && k < |s| && s[k] < s[i]
    ensures k < i
  {
  }

  function InsertInt(s: seq<int>, x: int): (r: seq<int>)
    requires SortedInts(s)
    ensures SortedInts(r)
    ensures multiset(r) == multiset(s) + multiset{x}
  {
    if s == [] then [x]
    else if x <= s[0] then [x] + s
    else
      var rest := InsertInt(s[1..], x);
      InsertIntBound(s, x, rest);
      [s[0]] + rest
  }

  /** Sorting an ascending list leaves it as it is. */
  lemma {:induction false} SortOfSorted(s: seq<int>)
    requires SortedInts(s)
    ensures SortInts(s) == s
  {
    if s != [] {
      var t := s[1..];
      SortedIntsTail(s);
      SortOfSorted(t);
      InsertAtFront(s);
    }
  }

  lemma SortedIntsTail(s: seq<int>)
    requires s != [] && SortedInts(s)
    ensures SortedInts(s[1..])
  {
    var t := s[1..];
    forall i, j | 0 <= i < j < |t| ensures t[i] <= t[j] {
      assert t[i] == s[i + 1] && t[j] == s[j + 1];
    }
  }

  /** The head of an ascending list goes back in front of its tail. */
  lemma InsertAtFront(s: seq<int>)
    requires s != [] && SortedInts(s)
    ensures InsertInt(s[1..], s[0]) == s
  {
    SortedIntsTail(s);
    assert s == [s[0]] + s[1..];
    if |s| > 1 {
      assert s[0] <= s[1] == s[1..][0];
    }
  }

  /** Everything in `rest`, a permutation of the tail plus `x`, is at least the head. */
  lemma InsertIntBound(s: seq<int>, x: int, rest: seq<int>)
    requires SortedInts(s) && s != [] && s[0] < x
    requires SortedInts(rest) && multiset(rest) == multiset(s[1..]) + multiset{x}
    ensures SortedInts([s[0]] + rest)
    ensures multiset([s[0]] + rest) == multiset(s) + multiset{x}
  {
    assert s == [s[0]] + s[1..];
    forall j | 0 <= j < |rest| ensures s[0] <= rest[j] {
      assert rest[j] in multiset(rest);
      if rest[j] != x {
        assert rest[j] in multiset(s[1..]);
        var k :| 0 <= k < |s[1..]| && s[1..][k] == rest[j];
        assert s[k + 1] == rest[j];
      }
    }
    var r := [s[0]] + rest;
    forall i, j | 0 <= i < j < |r| ensures r[i] <= r[j] {
      if i > 0 {
        assert r[i] == rest[i - 1] && r[j] == rest[j - 1];
      } else {
        assert r[j] == rest[j - 1];
      }
    }
  }

  /** Python's `sorted(s)` on a list of integers. */
  function SortInts(s: seq<int>): (r: seq<int>)
    ensures SortedInts(r)
    ensures multiset(r) == multiset(s)
    ensures |r| == |s|
  {
    if s == [] then []
    else
      assert s == [s[0]] + s[1..];
      InsertInt(SortInts(s[1..]), s[0])
  }

  lemma SortedDistinctIsIncreasing(s: seq<int>)
    requires SortedInts(s) && Distinct(s)
    ensures StrictlyIncreasing(s)
  {
  }

  lemma {:induction false} DistinctByMultiset<T>(a: seq<T>, b: seq<T>)
    requires multiset(a) == multiset(b) && Distinct(a)
    ensures Distinct(b)
  {
    forall i, j | 0 <= i < j < |b| ensures b[i] != b[j] {
      if b[i] == b[j] {
        var x := b[i];
        assert multiset(b)[x] >= 2 by {
          assert b == b[..i] + [b[i]] + b[i + 1..j] + [b[j]] + b[j + 1..];
        }
        DistinctCountsOne(a, x);
      }
    }
  }

  lemma {:induction false} DistinctCountsOne<T>(a: seq<T>, x: T)
    requires Distinct(a)
    ensures multiset(a)[x] <= 1
  {
    if a != [] {
      assert a == [a[0]] + a[1..];
      DistinctCountsOne(a[1..], x);
      if a[0] == x {
        assert x !in a[1..];
      }
    }
  }

  /* ---------- sorted(set) ---------- */

  lemma {:induction false} LeastElement(s: set<int>) returns (m: int)
    requires s != {}
    ensures m in s && forall x | x in s :: m <= x
    decreases |s|
  {
    if forall z :: z !in s {
      assert false;
    }
    var y :| y in s;
    if s == {y} {
      m := y;
    } else {
      var rest := s - {y};
      var k := LeastElement(rest);
      m := if y < k then y else k;
      forall x | x in s ensures m <= x {
        if x != y {
          assert x in rest;
        }
      }
    }
  }

  lemma MinExists(s: set<int>)
    requires s != {}
    ensures exists m :: m in s && forall x | x in s :: m <= x
  {
    var m := LeastElement(s);
  }

  function SetMin(s: set<int>): (m: int)
    requires s != {}
    ensures m in s && forall x | x in s :: m <= x
  {
    MinExists(s);
    var m :| m in s && forall x | x in s :: m <= x; m
  }

  /** Python's `sorted(s)` for a set of integers. */
  function SortedFromSet(s: set<int>): (r: seq<int>)
    ensures StrictlyIncreasing(r)
    ensures forall x :: x in r <==> x in s
    ensures |r| == |s|
    decreases |s|
  {
    if s == {} then []
    else
      var m := SetMin(s);
      [m] + SortedFromSet(s - {m})
  }

  /* ---------- sums over keys ---------- */

  function ValueOr0(m: map<int, int>, k: int): int {
    if k in m then m[k] else 0
  }

  /** `sum(m[k] for k in keys)`, reading a missing key as 0. */
  function SumOver(keys: seq<int>, m: map<int, int>): int {
    if keys == [] then 0 else ValueOr0(m, keys[0]) + SumOver(keys[1..], m)
  }

  lemma {:induction false} SumOverConcat(a: seq<int>, b: seq<int>, m: map<int, int>)
    ensures SumOver(a + b, m) == SumOver(a, m) + SumOver(b, m)
  {
    if a == [] {
      assert a + b == b;
    } else {
      assert (a + b)[1..] == a[1..] + b;
      SumOverConcat(a[1..], b, m);
    }
  }

  /** The sum does not depend on the order in which the keys are listed. */
  lemma {:induction false} SumOverPermutation(a: seq<int>, b: seq<int>, m: map<int, int>)
    requires multiset(a) == multiset(b)
    ensures SumOver(a, m) == SumOver(b, m)
    decreases |a|
  {
    if a != [] {
      assert a[0] in multiset(b);
      var j :| 0 <= j < |b| && b[j] == a[0];
      var rest := b[..j] + b[j + 1..];
      assert a == [a[0]] + a[1..];
      assert multiset(a[1..]) == multiset(a) - multiset{a[0]};
      MultisetRemove(b, j);
      SumOverPermutation(a[1..], rest, m);
      SumOverRemove(b, j, m);
    }
  }

  lemma MultisetRemove(b: seq<int>, j: nat)
    requires j < |b|
    ensures multiset(b[..j] + b[j + 1..]) == multiset(b) - multiset{b[j]}
  {
    assert b == b[..j] + [b[j]] + b[j + 1..];
    assert multiset(b) == multiset(b[..j]) + multiset{b[j]} + multiset(b[j + 1..]);
  }

  lemma SumOverRemove(b: seq<int>, j: nat, m: map<int, int>)
    requires j < |b|
    ensures SumOver(b, m) == ValueOr0(m, b[j]) + SumOver(b[..j] + b[j + 1..], m)
  {
    assert b == b[..j] + [b[j]] + b[j + 1..];
    SumOverConcat(b[..j] + [b[j]], b[j + 1..], m);
    SumOverConcat(b[..j], [b[j]], m);
    SumOverConcat(b[..j], b[j + 1..], m);
    assert SumOver([b[j]], m) == ValueOr0(m, b[j]) + SumOver([], m);
  }
}
