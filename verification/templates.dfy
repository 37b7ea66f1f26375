/** Composition templates as the creation wizard shapes them, and the name
    suggestions the bot offers while a template name is typed. */
module Templates {
  import opened Chars
  import opened Seqs
  import opened Entities
  import opened RaidActions
  import opened CompSpec

  /* ---------- reserved roles of an Avalonian raid ---------- */

  const ScoutKey := "scout"

  function LeaderRole(): CompRole {
    CompRole(RaidLeaderKey, "Raid Leader", 1, false, [])
  }

  function ScoutRole(scoutRequiredRoleIds: seq<int>): CompRole {
    CompRole(ScoutKey, "Scout", 1, false, scoutRequiredRoleIds)
  }

  predicate IsReserved(key: string) {
    key == RaidLeaderKey || key == ScoutKey
  }

  /** The roles whose key is not reserved, in order. */
  function DropReserved(roles: seq<CompRole>): (r: seq<CompRole>)
    ensures |r| <= |roles|
    ensures forall x :: x in r <==> x in roles && !IsReserved(x.key)
    ensures forall k | 0 <= k < |r| :: !IsReserved(r[k].key)
  {
    if roles == [] then []
    else
      assert forall x | x in roles :: x == roles[0] || x in roles[1..];
      var rest := DropReserved(roles[1..]);
      if IsReserved(roles[0].key) then rest
      else
        var r := [roles[0]] + rest;
        assert forall k | 1 <= k < |r| :: r[k] == rest[k - 1];
        r
  }

  /** For an Avalonian raid the roles are bookended by the raid leader and the
      scout, one slot each, and any role the spec gave either key is dropped;
      other content keeps its roles as parsed. */
  function ShapeRoles(contentType: ContentType, roles: seq<CompRole>, scoutRequiredRoleIds: seq<int>): (r: seq<CompRole>)
    ensures contentType != AvaRaid ==> r == roles
    ensures contentType == AvaRaid ==>
      && |r| >= 2
      && r[0] == LeaderRole() && r[|r| - 1] == ScoutRole(scoutRequiredRoleIds)
      && (forall k | 0 < k < |r| - 1 :: !IsReserved(r[k].key))
      && (forall x :: x in r[1..|r| - 1] <==> x in roles && !IsReserved(x.key))
  {
    if contentType == AvaRaid then
      var mid := DropReserved(roles);
      var r := [LeaderRole()] + mid + [ScoutRole(scoutRequiredRoleIds)];
      assert r[1..|r| - 1] == mid;
      r
    else roles
  }

  lemma {:induction false} DropReservedOfUnreserved(roles: seq<CompRole>)
    requires forall k | 0 <= k < |roles| :: !IsReserved(roles[k].key)
    ensures DropReserved(roles) == roles
  {
    if roles != [] {
      DropReservedOfUnreserved(roles[1..]);
    }
  }

  /** Shaping a template that is already shaped changes nothing. */
  lemma ShapeRolesIdempotent(contentType: ContentType, roles: seq<CompRole>, scoutRequiredRoleIds: seq<int>)
    ensures var once := ShapeRoles(contentType, roles, scoutRequiredRoleIds);
      ShapeRoles(contentType, once, scoutRequiredRoleIds) == once
  {
    if contentType == AvaRaid {
      var mid := DropReserved(roles);
      var once := [LeaderRole()] + mid + [ScoutRole(scoutRequiredRoleIds)];
      assert once == [LeaderRole()] + (mid + [ScoutRole(scoutRequiredRoleIds)]);
      assert IsReserved(LeaderRole().key) && IsReserved(ScoutRole(scoutRequiredRoleIds).key);
      DropReservedOfUnreserved(mid);
      DropReservedSnocReserved(mid, ScoutRole(scoutRequiredRoleIds));
    }
  }

  lemma DropReservedSnocReserved(mid: seq<CompRole>, x: CompRole)
    requires IsReserved(x.key) && DropReserved(mid) == mid
    ensures DropReserved(mid + [x]) == mid
  {
    DropReservedConcat(mid, [x]);
    assert DropReserved([x]) == DropReserved([x][1..]);
  }

  lemma {:induction false} DropReservedConcat(a: seq<CompRole>, b: seq<CompRole>)
    ensures DropReserved(a + b) == DropReserved(a) + DropReserved(b)
  {
    if a == [] {
      assert a + b == b;
    } else {
      assert (a + b)[1..] == a[1..] + b;
      DropReservedConcat(a[1..], b);
    }
  }

  /** Keys distinct before shaping stay distinct after it. */
  lemma ShapeRolesKeepsDistinctKeys(contentType: ContentType, roles: seq<CompRole>, scoutRequiredRoleIds: seq<int>)
    requires DistinctKeys(roles)
    ensures DistinctKeys(ShapeRoles(contentType, roles, scoutRequiredRoleIds))
  {
    if contentType == AvaRaid {
      DropReservedKeepsDistinctKeys(roles);
      var mid := DropReserved(roles);
      var r := [LeaderRole()] + mid + [ScoutRole(scoutRequiredRoleIds)];
      assert |RaidLeaderKey| != |ScoutKey|;
      assert IsReserved(LeaderRole().key) && IsReserved(ScoutRole(scoutRequiredRoleIds).key);
      assert r[0] == LeaderRole() && r[|r| - 1] == ScoutRole(scoutRequiredRoleIds);
      forall i, j | 0 <= i < j < |r| ensures r[i].key != r[j].key {
        if 0 < i {
          assert r[i] == mid[i - 1];
        }
        if j < |r| - 1 {
          assert r[j] == mid[j - 1];
        }
      }
    }
  }

  lemma {:induction false} DropReservedKeepsDistinctKeys(roles: seq<CompRole>)
    requires DistinctKeys(roles)
    ensures DistinctKeys(DropReserved(roles))
  {
    if roles != [] {
      var tail := roles[1..];
      DistinctKeysTail(roles);
      DropReservedKeepsDistinctKeys(tail);
      var rest := DropReserved(tail);
      if !IsReserved(roles[0].key) {
        forall y | y in rest ensures y.key != roles[0].key {
          var j :| 0 <= j < |tail| && tail[j] == y;
          assert roles[j + 1] == y;
        }
        DistinctKeysCons(roles[0], rest);
        assert DropReserved(roles) == [roles[0]] + rest;
      } else {
        assert DropReserved(roles) == rest;
      }
    }
  }

  lemma DistinctKeysTail(roles: seq<CompRole>)
    requires roles != [] && DistinctKeys(roles)
    ensures DistinctKeys(roles[1..])
  {
    var tail := roles[1..];
    forall i, j | 0 <= i < j < |tail| ensures tail[i].key != tail[j].key {
      assert tail[i] == roles[i + 1] && tail[j] == roles[j + 1];
    }
  }

  lemma DistinctKeysCons(x: CompRole, rest: seq<CompRole>)
    requires DistinctKeys(rest)
    requires forall y | y in rest :: y.key != x.key
    ensures DistinctKeys([x] + rest)
  {
    var r := [x] + rest;
    forall i, j | 0 <= i < j < |r| ensures r[i].key != r[j].key {
      assert r[j] == rest[j - 1] && r[j] in rest;
      if i > 0 {
        assert r[i] == rest[i - 1];
      }
    }
  }

  /* ---------- template name suggestions ---------- */

  /** The sort key of a template name. */
  function NameKey(name: string): string {
    Lower(name)
  }

  predicate SortedByName(s: seq<string>) {
    forall i, j | 0 <= i < j < |s| :: LexLe(NameKey(s[i]), NameKey(s[j]))
  }

  /** Inserting after every name whose key is not greater, which keeps equal
      keys in their original order. */
  function InsertByName(s: seq<string>, x: string): (r: seq<string>)
    requires SortedByName(s)
    ensures SortedByName(r)
    ensures multiset(r) == multiset(s) + multiset{x}
  {
    if s == [] then [x]
    else if LexLe(NameKey(s[0]), NameKey(x)) then
      SortedNameTail(s);
      var rest := InsertByName(s[1..], x);
      InsertAfterHead(s, x, rest);
      [s[0]] + rest
    else
      InsertBeforeHead(s, x);
      [x] + s
  }

  lemma InsertAfterHead(s: seq<string>, x: string, rest: seq<string>)
    requires s != [] && SortedByName(s) && LexLe(NameKey(s[0]), NameKey(x))
    requires SortedByName(rest) && multiset(rest) == multiset(s[1..]) + multiset{x}
    ensures SortedByName([s[0]] + rest)
    ensures multiset([s[0]] + rest) == multiset(s) + multiset{x}
  {
    HeadBelowRest(s, x, rest);
    ConsSortedByName(s[0], rest);
    assert s == [s[0]] + s[1..];
  }

  lemma HeadBelowRest(s: seq<string>, x: string, rest: seq<string>)
    requires s != [] && SortedByName(s) && LexLe(NameKey(s[0]), NameKey(x))
    requires multiset(rest) == multiset(s[1..]) + multiset{x}
    ensures forall y | y in rest :: LexLe(NameKey(s[0]), NameKey(y))
  {
    forall y | y in rest ensures LexLe(NameKey(s[0]), NameKey(y)) {
      assert y in multiset(rest);
      if y != x {
        assert y in multiset(s[1..]);
        var j :| 0 <= j < |s[1..]| && s[1..][j] == y;
        assert s[j + 1] == y;
      }
    }
  }

  lemma ConsSortedByName(h: string, rest: seq<string>)
    requires SortedByName(rest) && forall y | y in rest :: LexLe(NameKey(h), NameKey(y))
    ensures SortedByName([h] + rest)
  {
    var r := [h] + rest;
    assert forall k | 1 <= k < |r| :: r[k] == rest[k - 1] && r[k] in rest;
  }

  lemma SortedNameTail(s: seq<string>)
    requires s != [] && SortedByName(s)
    ensures SortedByName(s[1..])
  {
    var t := s[1..];
    forall i, j | 0 <= i < j < |t| ensures LexLe(NameKey(t[i]), NameKey(t[j])) {
      assert t[i] == s[i + 1] && t[j] == s[j + 1];
    }
  }

  lemma InsertBeforeHead(s: seq<string>, x: string)
    requires s != [] && SortedByName(s) && !LexLe(NameKey(s[0]), NameKey(x))
    ensures SortedByName([x] + s)
  {
    LexLeTotal(NameKey(s[0]), NameKey(x));
    forall y | y in s
      ensures LexLe(NameKey(x), NameKey(y))
    {
      if y != s[0] {
        var j :| 0 <= j < |s| && s[j] == y;
        LexLeTransitive(NameKey(x), NameKey(s[0]), NameKey(y));
      }
    }
    var r := [x] + s;
    assert forall k | 1 <= k < |r| :: r[k] == s[k - 1] && r[k] in s;
  }

  /** `sorted(names, key=lambda s: s.lower())`: sorted and a permutation; it is
      stable, as Python's sort, by SortByNameStable. */
  function SortByName(s: seq<string>): (r: seq<string>)
    ensures SortedByName(r)
    ensures multiset(r) == multiset(s)
  {
    if s == [] then []
    else
      assert s == s[..|s| - 1] + [s[|s| - 1]];
      InsertByName(SortByName(s[..|s| - 1]), s[|s| - 1])
  }

  /** The names of `s` whose sort key is `key`, in order. */
  function WithKey(s: seq<string>, key: string): seq<string> {
    if s == [] then []
    else (if NameKey(s[0]) == key then [s[0]] else []) + WithKey(s[1..], key)
  }

  /** Python's sort is stable: names whose keys tie, such as names equal up to
      case, keep the order they had in the store's dictionary. */
  lemma {:induction false} SortByNameStable(s: seq<string>)
    ensures forall key :: WithKey(SortByName(s), key) == WithKey(s, key)
  {
    if s != [] {
      var init, last := s[..|s| - 1], s[|s| - 1];
      SortByNameStable(init);
      assert s == init + [last];
      forall key ensures WithKey(SortByName(s), key) == WithKey(s, key) {
        InsertWithKey(SortByName(init), last, key);
        WithKeyConcat(init, [last], key);
      }
    }
  }

  lemma {:induction false} WithKeyConcat(a: seq<string>, b: seq<string>, key: string)
    ensures WithKey(a + b, key) == WithKey(a, key) + WithKey(b, key)
  {
    if a == [] {
      assert a + b == b;
    } else {
      assert (a + b)[0] == a[0] && (a + b)[1..] == a[1..] + b;
      WithKeyConcat(a[1..], b, key);
    }
  }

  /** Inserting `x` puts it after every name with the same key. */
  lemma {:induction false} InsertWithKey(t: seq<string>, x: string, key: string)
    requires SortedByName(t)
    ensures WithKey(InsertByName(t, x), key) == WithKey(t, key) + WithKey([x], key)
  {
    if t != [] {
      if LexLe(NameKey(t[0]), NameKey(x)) {
        SortedNameTail(t);
        InsertWithKey(t[1..], x, key);
        InsertAfterWithKey(t, x, InsertByName(t[1..], x), key);
      } else {
        InsertBeforeWithKey(t, x, key);
      }
    }
  }

  lemma InsertAfterWithKey(t: seq<string>, x: string, rest: seq<string>, key: string)
    requires t != []
    requires WithKey(rest, key) == WithKey(t[1..], key) + WithKey([x], key)
    ensures WithKey([t[0]] + rest, key) == WithKey(t, key) + WithKey([x], key)
  {
    WithKeyConcat([t[0]], rest, key);
    WithKeyConcat([t[0]], t[1..], key);
    assert t == [t[0]] + t[1..];
  }

  lemma InsertBeforeWithKey(t: seq<string>, x: string, key: string)
    requires t != [] && SortedByName(t) && !LexLe(NameKey(t[0]), NameKey(x))
    ensures WithKey([x] + t, key) == WithKey(t, key) + WithKey([x], key)
  {
    WithKeyConcat([x], t, key);
    if NameKey(x) == key {
      forall y | y in t ensures NameKey(y) != key {
        if NameKey(y) == key {
          var j :| 0 <= j < |t| && t[j] == y;
          assert j > 0 ==> LexLe(NameKey(t[0]), NameKey(t[j]));
          LexLeTotal(NameKey(t[0]), NameKey(x));
        }
      }
      NoneWithKey(t, key);
    }
  }

  lemma {:induction false} NoneWithKey(t: seq<string>, key: string)
    requires forall y | y in t :: NameKey(y) != key
    ensures WithKey(t, key) == []
  {
    if t != [] {
      assert forall y | y in t[1..] :: y in t;
      NoneWithKey(t[1..], key);
    }
  }

  /** The names whose key starts with `typed`, in order. */
  function Starting(names: seq<string>, typed: string): (r: seq<string>)
    ensures forall x :: x in r <==> x in names && IsPrefix(typed, NameKey(x))
  {
    if names == [] then []
    else
      assert forall x | x in names :: x == names[0] || x in names[1..];
      (if IsPrefix(typed, NameKey(names[0])) then [names[0]] else []) + Starting(names[1..], typed)
  }

  /** The names whose key contains `typed`, in order. */
  function Containing(names: seq<string>, typed: string): (r: seq<string>)
    ensures forall x :: x in r <==> x in names && Contains(NameKey(x), typed)
  {
    if names == [] then []
    else
      assert forall x | x in names :: x == names[0] || x in names[1..];
      (if Contains(NameKey(names[0]), typed) then [names[0]] else []) + Containing(names[1..], typed)
  }

  /** Python's `s[:25]`. */
  function Take(s: seq<string>, n: nat): (r: seq<string>)
    ensures |r| <= n && |r| <= |s|
    ensures r == s[..|r|]
    ensures |s| <= n ==> r == s
  {
    if |s| <= n then s else s[..n]
  }

  /** At most this many suggestions are offered. */
  const MaxSuggestions := 25

  /** The typed text as compared: lower-cased and stripped. */
  function Typed(typed: string): string {
    Strip(Lower(typed))
  }

  /** `_autocomplete_template_names`. */
  function SuggestNames(names: seq<string>, typed: string): (r: seq<string>)
    ensures |r| <= MaxSuggestions
  {
    Suggest(names, Typed(typed))
  }

  /** The suggestions for the compared text `u`: for blank input the first
      names in name order; otherwise the names starting with `u`, then the
      others containing it, each once. */
  function Suggest(names: seq<string>, u: string): (r: seq<string>)
    ensures |r| <= MaxSuggestions
  {
    var sorted := SortByName(names);
    if u == [] then Take(sorted, MaxSuggestions)
    else Take(Dedup(Starting(sorted, u) + Containing(sorted, u)), MaxSuggestions)
  }

  lemma SortedMembers(names: seq<string>)
    ensures forall x :: x in SortByName(names) <==> x in names
  {
    var sorted := SortByName(names);
    forall x ensures x in sorted <==> x in names {
      assert x in sorted <==> x in multiset(sorted);
      assert x in names <==> x in multiset(names);
    }
  }

  /** The names matching a non-blank `u`. */
  function Matching(names: seq<string>, u: string): set<string> {
    set x | x in names && Contains(NameKey(x), u)
  }

  lemma MergedMembers(names: seq<string>, u: string)
    ensures var sorted := SortByName(names);
      forall x :: x in Dedup(Starting(sorted, u) + Containing(sorted, u)) <==> x in Matching(names, u)
  {
    var sorted := SortByName(names);
    SortedMembers(names);
    forall x | x in Starting(sorted, u) ensures Contains(NameKey(x), u) {
      PrefixIsContained(u, NameKey(x));
    }
  }

  /** Every suggestion is a stored name, and for non-blank input its lower-cased
      form contains the typed text. */
  lemma SuggestionsMatch(names: seq<string>, u: string)
    ensures forall x | x in Suggest(names, u) :: x in names && (u != [] ==> Contains(NameKey(x), u))
  {
    var sorted := SortByName(names);
    var r := Suggest(names, u);
    SortedMembers(names);
    if u != [] {
      MergedMembers(names, u);
      var merged := Dedup(Starting(sorted, u) + Containing(sorted, u));
      assert forall x | x in r :: x in merged;
    } else {
      assert forall x | x in r :: x in sorted;
    }
  }

  /** For non-blank input no name is suggested twice; for blank input neither,
      as the stored names are distinct. */
  lemma SuggestionsDistinct(names: seq<string>, u: string)
    requires u != [] || Distinct(names)
    ensures Distinct(Suggest(names, u))
  {
    var sorted := SortByName(names);
    if u == [] {
      DistinctByMultiset(names, sorted);
      TakeDistinct(sorted, MaxSuggestions);
    } else {
      TakeDistinct(Dedup(Starting(sorted, u) + Containing(sorted, u)), MaxSuggestions);
    }
  }

  lemma TakeDistinct(s: seq<string>, n: nat)
    requires Distinct(s)
    ensures Distinct(Take(s, n))
  {
    var r := Take(s, n);
    assert forall i, j | 0 <= i < j < |r| :: r[i] == s[i] && r[j] == s[j];
  }

  /** The merged list is the prefix matches, then the names that only contain
      the text. */
  lemma MergedSplit(sorted: seq<string>, u: string) returns (front: seq<string>, back: seq<string>)
    ensures Dedup(Starting(sorted, u) + Containing(sorted, u)) == front + back
    ensures forall k | 0 <= k < |front| :: IsPrefix(u, NameKey(front[k]))
    ensures forall k | 0 <= k < |back| :: !IsPrefix(u, NameKey(back[k]))
  {
    var starts := Starting(sorted, u);
    var contains := Containing(sorted, u);
    DedupFromConcat(starts, contains, {});
    front := DedupFrom(starts, {});
    back := DedupFrom(contains, {} + Elems(starts));
    forall k | 0 <= k < |front| ensures IsPrefix(u, NameKey(front[k])) {
      assert front[k] in starts;
    }
    forall k | 0 <= k < |back| ensures !IsPrefix(u, NameKey(back[k])) {
      assert back[k] in contains && back[k] !in starts;
    }
  }

  /** Names starting with the typed text come before those that only contain
      it. */
  lemma PrefixMatchesFirst(names: seq<string>, u: string)
    requires u != []
    ensures var r := Suggest(names, u);
      forall i, j | 0 <= i < j < |r| && IsPrefix(u, NameKey(r[j])) :: IsPrefix(u, NameKey(r[i]))
  {
    var sorted := SortByName(names);
    var front, back := MergedSplit(sorted, u);
    var merged := front + back;
    var r := Suggest(names, u);
    assert r == Take(merged, MaxSuggestions);
    forall i, j | 0 <= i < j < |r| && IsPrefix(u, NameKey(r[j])) ensures IsPrefix(u, NameKey(r[i])) {
      assert r[i] == merged[i] && r[j] == merged[j];
      assert merged[i] == front[i];
    }
  }

  /** For blank input the suggestions are in name order, every name left out
      sorts after every name offered, and with at most 25 names all are
      offered. */
  lemma BlankSuggestions(names: seq<string>)
    ensures SortedByName(Suggest(names, []))
    ensures var r := Suggest(names, []);
      forall x, y | x in r && y in names && y !in r :: LexLe(NameKey(x), NameKey(y))
    ensures |names| <= MaxSuggestions ==> forall y | y in names :: y in Suggest(names, [])
  {
    var sorted := SortByName(names);
    var r := Suggest(names, []);
    assert r == Take(sorted, MaxSuggestions);
    SortedMembers(names);
    assert |sorted| == |multiset(sorted)| == |multiset(names)| == |names|;
    SortedPrefix(sorted, r);
  }

  /** A prefix of a sorted list is sorted and sorts before everything after it. */
  lemma SortedPrefix(sorted: seq<string>, r: seq<string>)
    requires SortedByName(sorted) && |r| <= |sorted| && r == sorted[..|r|]
    ensures SortedByName(r)
    ensures forall x, y | x in r && y in sorted && y !in r :: LexLe(NameKey(x), NameKey(y))
  {
    forall x, y | x in r && y in sorted && y !in r ensures LexLe(NameKey(x), NameKey(y)) {
      var i :| 0 <= i < |r| && r[i] == x;
      var j :| 0 <= j < |sorted| && sorted[j] == y;
      assert sorted[i] == x;
    }
  }

  /** When at most 25 distinct names match, every one of them is suggested. */
  lemma SuggestionsComplete(names: seq<string>, u: string)
    requires u != [] && |Matching(names, u)| <= MaxSuggestions
    ensures forall x | x in Matching(names, u) :: x in Suggest(names, u)
  {
    var sorted := SortByName(names);
    var merged := Dedup(Starting(sorted, u) + Containing(sorted, u));
    MergedMembers(names, u);
    DistinctCardinality(merged);
    assert (set x | x in merged) == Matching(names, u);
  }

  /** The typed text is normalised once: feeding back the normalised text,
      lower-cased and stripped already, gives the same suggestions. */
  lemma SuggestNamesTyped(names: seq<string>, typed: string)
    ensures SuggestNames(names, Typed(typed)) == SuggestNames(names, typed)
  {
    TypedIdempotent(typed);
  }

  lemma TypedIdempotent(typed: string)
    ensures Typed(Typed(typed)) == Typed(typed)
  {
    var low := Lower(typed);
    var x := Strip(low);
    StripIsSlice(low);
    var i, j :| 0 <= i <= j <= |low| && x == low[i..j];
    assert Lower(x) == x by {
      forall k | 0 <= k < |x| ensures Lower(x)[k] == x[k] {
        assert x[k] == low[i + k] == LowerChar(typed[i + k]);
      }
    }
    StripIdempotent(low);
  }
}
