/** The raid roster: sign-ups per role, the waitlist ordered by join time, and
    the promotion of waiters into free main places. The sign-up dictionary is a
    sequence in insertion order; updating an existing user keeps their place. */
module Roster {
  import opened Base
  import opened Seqs
  import opened Entities

  /* ---------- role map ---------- */

  /** Index of the last role with `key`: building the role map from the
      template's roles lets a later role overwrite an earlier one. */
  function LastRoleIndex(roles: seq<CompRole>, key: string): (r: Option<nat>)
    ensures r.Some? ==> r.value < |roles| && roles[r.value].key == key
    ensures r.Some? ==> forall j | r.value < j < |roles| :: roles[j].key != key
    ensures r.None? <==> forall j | 0 <= j < |roles| :: roles[j].key != key
  {
    if roles == [] then None
    else if roles[|roles| - 1].key == key then Some(|roles| - 1)
    else LastRoleIndex(roles[..|roles| - 1], key)
  }

  /** `role_map(tpl).get(key)`. */
  function RoleDef(roles: seq<CompRole>, key: string): (r: Option<CompRole>)
    ensures r.Some? ==> r.value.key == key && r.value in roles
    ensures r.None? <==> forall j | 0 <= j < |roles| :: roles[j].key != key
  {
    match LastRoleIndex(roles, key)
    case None => None
    case Some(i) => Some(roles[i])
  }

  function KeysOf(roles: seq<CompRole>): (ks: seq<string>)
    ensures |ks| == |roles| && forall i | 0 <= i < |roles| :: ks[i] == roles[i].key
  {
    seq(|roles|, i requires 0 <= i < |roles| => roles[i].key)
  }

  /** `role_map(tpl).keys()`: every key of the template once. */
  function RoleKeys(roles: seq<CompRole>): (ks: seq<string>)
    ensures Distinct(ks)
    ensures forall k :: k in ks <==> RoleDef(roles, k).Some?
  {
    var all := KeysOf(roles);
    assert forall k :: k in all <==> exists j :: 0 <= j < |roles| && roles[j].key == k by {
      forall k ensures k in all ==> exists j :: 0 <= j < |roles| && roles[j].key == k {
        if k in all {
          var j :| 0 <= j < |all| && all[j] == k;
          assert roles[j].key == k;
        }
      }
    }
    Dedup(all)
  }

  /* ---------- counting ---------- */

  predicate Holds(s: Signup, key: string, status: SignupStatus) {
    s.roleKey == key && s.status == status
  }

  /** The number of sign-ups on role `key` with the given status. */
  function Count(signups: seq<Signup>, key: string, status: SignupStatus): (n: nat)
    ensures n <= |signups|
    ensures n == 0 <==> forall i | 0 <= i < |signups| :: !Holds(signups[i], key, status)
  {
    if signups == [] then 0
    else
      assert forall i | 1 <= i < |signups| :: signups[i] == signups[1..][i - 1];
      (if Holds(signups[0], key, status) then 1 else 0) + Count(signups[1..], key, status)
  }

  /** `count_main_for_role`. */
  function CountMain(signups: seq<Signup>, key: string): nat {
    Count(signups, key, Main)
  }

  function Indicator(s: Signup, key: string, status: SignupStatus): nat {
    if Holds(s, key, status) then 1 else 0
  }

  /** Replacing one sign-up changes a count by the difference of the two. */
  lemma {:induction false} CountUpdate(a: seq<Signup>, i: nat, v: Signup, key: string, status: SignupStatus)
    requires i < |a|
    ensures Count(a[i := v], key, status) + Indicator(a[i], key, status)
         == Count(a, key, status) + Indicator(v, key, status)
  {
    if i > 0 {
      assert a[i := v][1..] == a[1..][i - 1 := v];
      CountUpdate(a[1..], i - 1, v, key, status);
    } else {
      assert a[i := v][1..] == a[1..];
    }
  }

  lemma {:induction false} CountSnoc(a: seq<Signup>, v: Signup, key: string, status: SignupStatus)
    ensures Count(a + [v], key, status) == Count(a, key, status) + Indicator(v, key, status)
  {
    if a == [] {
      assert (a + [v])[1..] == [];
    } else {
      assert (a + [v])[1..] == a[1..] + [v];
      CountSnoc(a[1..], v, key, status);
    }
  }

  /* ---------- the waitlist ---------- */

  predicate Waiting(s: Signup, key: string) {
    s.roleKey == key && s.status == Wait
  }

  /** A waiter who may be promoted: waiting on `key` and not declared absent. */
  predicate Eligible(s: Signup, key: string, absent: set<int>) {
    Waiting(s, key) && s.userId !in absent
  }

  predicate HasEligible(signups: seq<Signup>, key: string, absent: set<int>) {
    exists i :: 0 <= i < |signups| && Eligible(signups[i], key, absent)
  }

  /** The waiting sign-ups of `key`, in dictionary order. */
  function WaitFilter(signups: seq<Signup>, key: string): (w: seq<Signup>)
    ensures forall x :: x in w <==> x in signups && Waiting(x, key)
  {
    if signups == [] then []
    else
      assert forall x | x in signups[1..] :: x in signups;
      assert forall x | x in signups :: x == signups[0] || x in signups[1..];
      (if Waiting(signups[0], key) then [signups[0]] else []) + WaitFilter(signups[1..], key)
  }

  predicate SortedByJoined(s: seq<Signup>) {
    forall i, j | 0 <= i < j < |s| :: s[i].joinedAt <= s[j].joinedAt
  }

  /** Inserts `x` after every element that joined no later than it. */
  function InsertByJoined(s: seq<Signup>, x: Signup): (r: seq<Signup>)
    requires SortedByJoined(s)
    ensures SortedByJoined(r)
    ensures multiset(r) == multiset(s) + multiset{x}
    ensures forall y :: y in r <==> y in s || y == x
  {
    if s == [] then [x]
    else if s[0].joinedAt <= x.joinedAt then
      var rest := InsertByJoined(s[1..], x);
      InsertBehindHead(s, x, rest);
      [s[0]] + rest
    else
      InsertInFront(s, x);
      [x] + s
  }

  lemma InsertBehindHead(s: seq<Signup>, x: Signup, rest: seq<Signup>)
    requires SortedByJoined(s) && s != [] && s[0].joinedAt <= x.joinedAt
    requires SortedByJoined(rest) && multiset(rest) == multiset(s[1..]) + multiset{x}
    requires forall y :: y in rest <==> y in s[1..] || y == x
    ensures SortedByJoined([s[0]] + rest)
    ensures multiset([s[0]] + rest) == multiset(s) + multiset{x}
    ensures forall y :: y in [s[0]] + rest <==> y in s || y == x
  {
    assert s == [s[0]] + s[1..];
    forall j | 0 <= j < |rest| ensures s[0].joinedAt <= rest[j].joinedAt {
      assert rest[j] in rest;
      if rest[j] != x {
        assert rest[j] in s[1..];
        var k :| 0 <= k < |s[1..]| && s[1..][k] == rest[j];
        assert s[k + 1] == rest[j];
      }
    }
    var r := [s[0]] + rest;
    forall i, j | 0 <= i < j < |r| ensures r[i].joinedAt <= r[j].joinedAt {
      assert r[j] == rest[j - 1];
      if i > 0 {
        assert r[i] == rest[i - 1];
      }
    }
  }

  lemma InsertInFront(s: seq<Signup>, x: Signup)
    requires SortedByJoined(s) && s != [] && x.joinedAt < s[0].joinedAt
    ensures SortedByJoined([x] + s)
  {
    var r := [x] + s;
    forall i, j | 0 <= i < j < |r| ensures r[i].joinedAt <= r[j].joinedAt {
      assert r[j] == s[j - 1];
      if i > 0 {
        assert r[i] == s[i - 1];
      }
    }
  }

  /** A stable sort by join time, as Python's `list.sort(key=...)`. */
  function SortByJoined(s: seq<Signup>): (r: seq<Signup>)
    ensures SortedByJoined(r)
    ensures multiset(r) == multiset(s)
  {
    if s == [] then []
    else
      assert s == s[..|s| - 1] + [s[|s| - 1]];
      InsertByJoined(SortByJoined(s[..|s| - 1]), s[|s| - 1])
  }

  /** `list_wait_for_role`: the waiters of `key`, earliest join first. */
  function ListWait(signups: seq<Signup>, key: string): (w: seq<Signup>)
    ensures SortedByJoined(w)
    ensures multiset(w) == multiset(WaitFilter(signups, key))
    ensures forall x :: x in w <==> x in signups && Waiting(x, key)
  {
    var f := WaitFilter(signups, key);
    var w := SortByJoined(f);
    assert forall x :: x in w <==> x in multiset(f);
    w
  }

  /** The first element of `list` whose user is not absent. */
  function FirstPresent(list: seq<Signup>, absent: set<int>): (r: Option<Signup>)
    ensures r.Some? ==> r.value in list && r.value.userId !in absent
    ensures r.None? <==> forall i | 0 <= i < |list| :: list[i].userId in absent
  {
    if list == [] then None
    else if list[0].userId !in absent then Some(list[0])
    else
      assert forall i | 1 <= i < |list| :: list[i] == list[1..][i - 1];
      FirstPresent(list[1..], absent)
  }

  /** The waiter a promotion is meant to pick, as an index into `w`: among the
      users not absent, the one who joined first, and on a tie the one listed
      first. */
  function EarliestIndex(w: seq<Signup>, absent: set<int>): (r: Option<nat>)
    ensures r.None? <==> forall i | 0 <= i < |w| :: w[i].userId in absent
    ensures r.Some? ==> r.value < |w| && w[r.value].userId !in absent
    ensures r.Some? ==> forall i | 0 <= i < |w| && w[i].userId !in absent :: w[r.value].joinedAt <= w[i].joinedAt
    ensures r.Some? ==> forall i | 0 <= i < r.value && w[i].userId !in absent :: w[r.value].joinedAt < w[i].joinedAt
  {
    if w == [] then None
    else
      var n := |w| - 1;
      var b := EarliestIndex(w[..n], absent);
      assert forall i | 0 <= i < n :: w[..n][i] == w[i];
      if w[n].userId in absent then b
      else if b.Some? && w[b.value].joinedAt <= w[n].joinedAt then b
      else Some(n)
  }

  function Picked(w: seq<Signup>, absent: set<int>): Option<Signup> {
    match EarliestIndex(w, absent)
    case None => None
    case Some(p) => Some(w[p])
  }

  /** Inserting into a sorted list moves the first present element only when
      the newcomer is present and joined strictly earlier. */
  lemma {:induction false} FirstPresentInsert(s: seq<Signup>, x: Signup, absent: set<int>)
    requires SortedByJoined(s)
    ensures FirstPresent(InsertByJoined(s, x), absent) ==
      (if x.userId in absent then FirstPresent(s, absent)
       else if FirstPresent(s, absent).Some? && FirstPresent(s, absent).value.joinedAt <= x.joinedAt
       then FirstPresent(s, absent)
       else Some(x))
  {
    if s != [] {
      if s[0].joinedAt <= x.joinedAt {
        var rest := InsertByJoined(s[1..], x);
        assert ([s[0]] + rest)[1..] == rest;
        FirstPresentInsert(s[1..], x, absent);
      } else {
        assert ([x] + s)[1..] == s;
        var f := FirstPresent(s, absent);
        if f.Some? {
          var k :| 0 <= k < |s| && s[k] == f.value;
          assert s[0].joinedAt <= s[k].joinedAt;
        }
      }
    }
  }

  /** Taking the first present user of the sorted waitlist is the same as
      taking the earliest present waiter, ties going to the earlier sign-up:
      this is where the stability of the sort matters. */
  lemma {:induction false} SortedPickIsEarliest(w: seq<Signup>, absent: set<int>)
    ensures FirstPresent(SortByJoined(w), absent) == Picked(w, absent)
  {
    if w != [] {
      var n := |w| - 1;
      var x := w[n];
      var front := w[..n];
      assert w == front + [x];
      var sorted := SortByJoined(front);
      assert SortByJoined(w) == InsertByJoined(sorted, x);
      SortedPickIsEarliest(front, absent);
      FirstPresentInsert(sorted, x, absent);
      var b := EarliestIndex(front, absent);
      assert EarliestIndex(w, absent) ==
        (if x.userId in absent then b
         else if b.Some? && w[b.value].joinedAt <= x.joinedAt then b
         else Some(n));
      if b.Some? {
        assert front[b.value] == w[b.value];
      }
    }
  }

  /* ---------- promotion ---------- */

  function IndexOf(s: seq<Signup>, x: Signup): (i: nat)
    requires x in s
    ensures i < |s| && s[i] == x
  {
    if s[0] == x then 0 else 1 + IndexOf(s[1..], x)
  }

  /** `after` is `before` with the sign-up at `k` moved from the waitlist to
      the main roster, and nothing else changed. */
  predicate PromotesAt(before: seq<Signup>, after: seq<Signup>, k: nat) {
    && |after| == |before| && k < |before|
    && before[k].status == Wait
    && after[k] == before[k].(status := Main)
    && forall i | 0 <= i < |before| && i != k :: after[i] == before[i]
  }

  /** The waiter `promote_from_waitlist` picks: the first present user of
      the sorted waitlist. */
  function Pick(signups: seq<Signup>, key: string, absent: set<int>): (r: Option<Signup>)
    ensures r.Some? ==> r.value in signups && Eligible(r.value, key, absent)
    ensures r.None? <==> !HasEligible(signups, key, absent)
  {
    var w := ListWait(signups, key);
    assert forall i | 0 <= i < |signups| && Eligible(signups[i], key, absent) :: signups[i] in w;
    FirstPresent(w, absent)
  }

  /** `promote_from_waitlist`: the sign-ups after promoting one waiter of
      `key`, or None when the role is unknown, full, or has no eligible
      waiter. */
  function Promote(signups: seq<Signup>, absent: set<int>, roles: seq<CompRole>, key: string): (r: Option<seq<Signup>>)
    ensures r.None? <==>
      || RoleDef(roles, key).None?
      || CountMain(signups, key) >= RoleDef(roles, key).value.slots
      || !HasEligible(signups, key, absent)
    ensures r.Some? ==> exists k: nat :: PromotesAt(signups, r.value, k) && Eligible(signups[k], key, absent)
    ensures r.Some? ==> Count(r.value, key, Wait) < Count(signups, key, Wait)
    ensures r.Some? ==> CountMain(r.value, key) == CountMain(signups, key) + 1
  {
    match RoleDef(roles, key)
    case None => None
    case Some(def) =>
      if CountMain(signups, key) >= def.slots then None
      else match Pick(signups, key, absent)
        case None => None
        case Some(w) =>
          var k := IndexOf(signups, w);
          var after := signups[k := w.(status := Main)];
          CountUpdate(signups, k, w.(status := Main), key, Wait);
          CountUpdate(signups, k, w.(status := Main), key, Main);
          assert PromotesAt(signups, after, k);
          Some(after)
  }

  /** The promoted waiter joined no later than any other eligible waiter, and
      it is the one the stable sort puts first. */
  lemma PromoteChoosesEarliest(signups: seq<Signup>, absent: set<int>, roles: seq<CompRole>, key: string)
    requires Promote(signups, absent, roles, key).Some?
    ensures Pick(signups, key, absent) == Picked(WaitFilter(signups, key), absent)
    ensures forall i | 0 <= i < |signups| && Eligible(signups[i], key, absent) ::
      Pick(signups, key, absent).value.joinedAt <= signups[i].joinedAt
  {
    PickIsEarliest(signups, absent, key);
  }

  lemma PickIsEarliest(signups: seq<Signup>, absent: set<int>, key: string)
    requires HasEligible(signups, key, absent)
    ensures Pick(signups, key, absent) == Picked(WaitFilter(signups, key), absent)
    ensures forall i | 0 <= i < |signups| && Eligible(signups[i], key, absent) ::
      Pick(signups, key, absent).value.joinedAt <= signups[i].joinedAt
  {
    var f := WaitFilter(signups, key);
    SortedPickIsEarliest(f, absent);
    var p := EarliestIndex(f, absent).value;
    forall i | 0 <= i < |signups| && Eligible(signups[i], key, absent)
      ensures f[p].joinedAt <= signups[i].joinedAt
    {
      assert signups[i] in f;
      var j :| 0 <= j < |f| && f[j] == signups[i];
    }
  }

  /** Promoting every eligible waiter of `key` while places remain. */
  function PromoteAll(signups: seq<Signup>, absent: set<int>, roles: seq<CompRole>, key: string): (r: seq<Signup>)
    ensures Promote(r, absent, roles, key).None?
    decreases Count(signups, key, Wait)
  {
    match Promote(signups, absent, roles, key)
    case None => signups
    case Some(next) => PromoteAll(next, absent, roles, key)
  }

  function RecomputeKeys(signups: seq<Signup>, absent: set<int>, roles: seq<CompRole>, keys: seq<string>): seq<Signup>
    decreases |keys|
  {
    if keys == [] then signups
    else RecomputeKeys(PromoteAll(signups, absent, roles, keys[0]), absent, roles, keys[1..])
  }

  /* ---------- promotion invariants ---------- */

  /** No role of the template has a free main place while an eligible waiter
      of that role remains. */
  predicate SaturatedFor(signups: seq<Signup>, absent: set<int>, roles: seq<CompRole>, key: string) {
    RoleDef(roles, key).Some? ==>
      CountMain(signups, key) >= RoleDef(roles, key).value.slots || !HasEligible(signups, key, absent)
  }

  ghost predicate Saturated(signups: seq<Signup>, absent: set<int>, roles: seq<CompRole>) {
    forall key :: SaturatedFor(signups, absent, roles, key)
  }

  /** `after` differs from `before` only by waiters moved to the main roster:
      the same users in the same places, with the same roles, power and join
      times, and nobody demoted. */
  predicate Promoted(before: seq<Signup>, after: seq<Signup>) {
    && |after| == |before|
    && forall i | 0 <= i < |before| ::
      after[i] == before[i] || (before[i].status == Wait && after[i] == before[i].(status := Main))
  }

  lemma PromotedTrans(a: seq<Signup>, b: seq<Signup>, c: seq<Signup>)
    requires Promoted(a, b) && Promoted(b, c)
    ensures Promoted(a, c)
  {
  }

  /** Every sign-up that changed belonged to a user not declared absent and
      to a role of the template. */
  predicate ChangesEligible(before: seq<Signup>, after: seq<Signup>, absent: set<int>, roles: seq<CompRole>) {
    forall i | 0 <= i < |before| && i < |after| && after[i] != before[i] ::
      before[i].userId !in absent && RoleDef(roles, before[i].roleKey).Some?
  }

  /** No role of the template gained main places beyond its slot count: a
      role already over its slots keeps its count, any other stays within. */
  ghost predicate WithinSlots(before: seq<Signup>, after: seq<Signup>, roles: seq<CompRole>) {
    forall key | RoleDef(roles, key).Some? ::
      CountMain(after, key) <= Max(CountMain(before, key), RoleDef(roles, key).value.slots)
  }

  /** Every promoted sign-up joined no later than any waiter of its role who
      is still eligible afterwards: waiters are taken earliest first. */
  predicate EarliestFirst(before: seq<Signup>, after: seq<Signup>, absent: set<int>) {
    forall i, j | 0 <= i < |before| && i < |after| && 0 <= j < |after|
        && after[i] != before[i] && Eligible(after[j], before[i].roleKey, absent) ::
      before[i].joinedAt <= after[j].joinedAt
  }

  lemma EarliestFirstTrans(a: seq<Signup>, b: seq<Signup>, c: seq<Signup>, absent: set<int>)
    requires Promoted(a, b) && Promoted(b, c)
    requires EarliestFirst(a, b, absent) && EarliestFirst(b, c, absent)
    ensures EarliestFirst(a, c, absent)
  {
    forall i, j | 0 <= i < |a| && i < |c| && 0 <= j < |c|
        && c[i] != a[i] && Eligible(c[j], a[i].roleKey, absent)
      ensures a[i].joinedAt <= c[j].joinedAt
    {
      assert b[j] == c[j];
      if b[i] == a[i] {
        assert c[i] != b[i];
      }
    }
  }

  lemma ChangesEligibleTrans(a: seq<Signup>, b: seq<Signup>, c: seq<Signup>, absent: set<int>, roles: seq<CompRole>)
    requires Promoted(a, b) && Promoted(b, c)
    requires ChangesEligible(a, b, absent, roles) && ChangesEligible(b, c, absent, roles)
    ensures ChangesEligible(a, c, absent, roles)
  {
    forall i | 0 <= i < |a| && i < |c| && c[i] != a[i]
      ensures a[i].userId !in absent && RoleDef(roles, a[i].roleKey).Some?
    {
      if b[i] == a[i] {
        assert c[i] != b[i];
      }
    }
  }

  /** A promotion for one role leaves the counts and the waiters of every
      other role as they were. */
  lemma PromoteKeepsOtherRole(
    signups: seq<Signup>, absent: set<int>, roles: seq<CompRole>, key: string, other: string)
    requires other != key && Promote(signups, absent, roles, key).Some?
    ensures CountMain(Promote(signups, absent, roles, key).value, other) == CountMain(signups, other)
    ensures HasEligible(Promote(signups, absent, roles, key).value, other, absent)
        == HasEligible(signups, other, absent)
  {
    var after := Promote(signups, absent, roles, key).value;
    var k: nat :| PromotesAt(signups, after, k) && Eligible(signups[k], key, absent);
    PromotesAtKeepsOther(signups, after, k, key, other, absent);
  }

  lemma PromotesAtKeepsOther(before: seq<Signup>, after: seq<Signup>, k: nat, key: string, other: string, absent: set<int>)
    requires PromotesAt(before, after, k) && before[k].roleKey == key && other != key
    ensures CountMain(after, other) == CountMain(before, other)
    ensures HasEligible(after, other, absent) == HasEligible(before, other, absent)
  {
    assert after == before[k := after[k]];
    CountUpdate(before, k, after[k], other, Main);
    if HasEligible(before, other, absent) {
      var i :| 0 <= i < |before| && Eligible(before[i], other, absent);
      assert i != k && after[i] == before[i];
    }
    if HasEligible(after, other, absent) {
      var i :| 0 <= i < |after| && Eligible(after[i], other, absent);
      assert i != k && after[i] == before[i];
    }
  }

  lemma {:induction false} PromoteAllEffect(
    signups: seq<Signup>, absent: set<int>, roles: seq<CompRole>, key: string, other: string)
    ensures Promoted(signups, PromoteAll(signups, absent, roles, key))
    ensures ChangesEligible(signups, PromoteAll(signups, absent, roles, key), absent, roles)
    ensures EarliestFirst(signups, PromoteAll(signups, absent, roles, key), absent)
    ensures RoleDef(roles, key).Some? ==>
      CountMain(PromoteAll(signups, absent, roles, key), key) <= Max(CountMain(signups, key), RoleDef(roles, key).value.slots)
    ensures other != key ==> CountMain(PromoteAll(signups, absent, roles, key), other) == CountMain(signups, other)
    ensures other != key ==>
      HasEligible(PromoteAll(signups, absent, roles, key), other, absent) == HasEligible(signups, other, absent)
    decreases Count(signups, key, Wait)
  {
    match Promote(signups, absent, roles, key)
    case None =>
    case Some(next) =>
      PromoteStep(signups, absent, roles, key, next);
      PromoteAllEffect(next, absent, roles, key, other);
      PromotedTrans(signups, next, PromoteAll(next, absent, roles, key));
      ChangesEligibleTrans(signups, next, PromoteAll(next, absent, roles, key), absent, roles);
      EarliestFirstTrans(signups, next, PromoteAll(next, absent, roles, key), absent);
      if other != key {
        PromoteKeepsOtherRole(signups, absent, roles, key, other);
      }
  }

  /** One promotion changes one eligible waiter of a template role and takes
      a free place. */
  lemma PromoteStep(signups: seq<Signup>, absent: set<int>, roles: seq<CompRole>, key: string, next: seq<Signup>)
    requires Promote(signups, absent, roles, key) == Some(next)
    ensures Promoted(signups, next) && ChangesEligible(signups, next, absent, roles)
    ensures RoleDef(roles, key).Some? && CountMain(next, key) <= RoleDef(roles, key).value.slots
    ensures EarliestFirst(signups, next, absent)
  {
    var w := Pick(signups, key, absent).value;
    var k := IndexOf(signups, w);
    assert next == signups[k := w.(status := Main)];
    assert PromotesAt(signups, next, k);
    PickIsEarliest(signups, absent, key);
    forall i, j | 0 <= i < |signups| && i < |next| && 0 <= j < |next|
        && next[i] != signups[i] && Eligible(next[j], signups[i].roleKey, absent)
      ensures signups[i].joinedAt <= next[j].joinedAt
    {
      assert i == k && j != k;
    }
  }

  lemma {:induction false} RecomputeKeysEffect(
    signups: seq<Signup>, absent: set<int>, roles: seq<CompRole>, keys: seq<string>, other: string)
    ensures Promoted(signups, RecomputeKeys(signups, absent, roles, keys))
    ensures ChangesEligible(signups, RecomputeKeys(signups, absent, roles, keys), absent, roles)
    ensures EarliestFirst(signups, RecomputeKeys(signups, absent, roles, keys), absent)
    ensures RoleDef(roles, other).Some? ==>
      CountMain(RecomputeKeys(signups, absent, roles, keys), other)
        <= Max(CountMain(signups, other), RoleDef(roles, other).value.slots)
    ensures other !in keys ==>
      CountMain(RecomputeKeys(signups, absent, roles, keys), other) == CountMain(signups, other)
    ensures other !in keys ==>
      HasEligible(RecomputeKeys(signups, absent, roles, keys), other, absent) == HasEligible(signups, other, absent)
    decreases |keys|
  {
    if keys != [] {
      var s1 := PromoteAll(signups, absent, roles, keys[0]);
      PromoteAllEffect(signups, absent, roles, keys[0], other);
      RecomputeKeysEffect(s1, absent, roles, keys[1..], other);
      PromotedTrans(signups, s1, RecomputeKeys(s1, absent, roles, keys[1..]));
      ChangesEligibleTrans(signups, s1, RecomputeKeys(s1, absent, roles, keys[1..]), absent, roles);
      EarliestFirstTrans(signups, s1, RecomputeKeys(s1, absent, roles, keys[1..]), absent);
    }
  }

  /** After promoting along `keys`, every listed role is saturated. */
  lemma {:induction false} RecomputeKeysSaturates(
    signups: seq<Signup>, absent: set<int>, roles: seq<CompRole>, keys: seq<string>, key: string)
    requires key in keys
    ensures SaturatedFor(RecomputeKeys(signups, absent, roles, keys), absent, roles, key)
    decreases |keys|
  {
    var s1 := PromoteAll(signups, absent, roles, keys[0]);
    var r := RecomputeKeys(s1, absent, roles, keys[1..]);
    if key in keys[1..] {
      RecomputeKeysSaturates(s1, absent, roles, keys[1..], key);
    } else {
      assert key == keys[0];
      RecomputeKeysEffect(s1, absent, roles, keys[1..], key);
    }
  }

  /** `after` is what recomputing the promotions of `before` may give: every
      role saturated, only eligible waiters of template roles promoted,
      earliest first, and no role filled beyond its slots. */
  ghost predicate Settled(before: seq<Signup>, after: seq<Signup>, absent: set<int>, roles: seq<CompRole>) {
    && Saturated(after, absent, roles)
    && Promoted(before, after)
    && ChangesEligible(before, after, absent, roles)
    && WithinSlots(before, after, roles)
    && EarliestFirst(before, after, absent)
  }

  /** `recompute_promotions`: promote along the template's role keys until
      no role can take another waiter. */
  function Recompute(signups: seq<Signup>, absent: set<int>, roles: seq<CompRole>): (r: seq<Signup>)
    ensures Saturated(r, absent, roles)
    ensures Promoted(signups, r)
    ensures ChangesEligible(signups, r, absent, roles)
    ensures WithinSlots(signups, r, roles)
    ensures EarliestFirst(signups, r, absent)
  {
    var keys := RoleKeys(roles);
    var r := RecomputeKeys(signups, absent, roles, keys);
    RecomputeKeysEffect(signups, absent, roles, keys, "");
    forall key | RoleDef(roles, key).Some?
      ensures CountMain(r, key) <= Max(CountMain(signups, key), RoleDef(roles, key).value.slots)
    {
      RecomputeKeysEffect(signups, absent, roles, keys, key);
    }
    forall key ensures SaturatedFor(r, absent, roles, key) {
      if RoleDef(roles, key).Some? {
        RecomputeKeysSaturates(signups, absent, roles, keys, key);
      }
    }
    r
  }

  /* ---------- the sign-up dictionary ---------- */

  predicate UniqueUsers(signups: seq<Signup>) {
    forall i, j | 0 <= i < j < |signups| :: signups[i].userId != signups[j].userId
  }

  /** Position of `userId`'s entry: the first one with that user. */
  function SignupIndex(signups: seq<Signup>, userId: int): (r: Option<nat>)
    ensures r.Some? ==> r.value < |signups| && signups[r.value].userId == userId
    ensures r.Some? ==> forall j | 0 <= j < r.value :: signups[j].userId != userId
    ensures r.None? <==> forall j | 0 <= j < |signups| :: signups[j].userId != userId
  {
    if signups == [] then None
    else if signups[0].userId == userId then Some(0)
    else match SignupIndex(signups[1..], userId)
      case None => None
      case Some(i) => Some(i + 1)
  }

  /** `raid.signups.get(user_id)`. */
  function GetSignup(signups: seq<Signup>, userId: int): (r: Option<Signup>)
    ensures r.Some? ==> r.value in signups && r.value.userId == userId
    ensures r.None? <==> forall j | 0 <= j < |signups| :: signups[j].userId != userId
  {
    match SignupIndex(signups, userId)
    case None => None
    case Some(i) => Some(signups[i])
  }

  /** The first-entry lookup only depends on which places hold the user. */
  lemma SameHolders(a: seq<Signup>, b: seq<Signup>, userId: int)
    requires |a| <= |b|
    requires forall j | 0 <= j < |a| :: (a[j].userId == userId) == (b[j].userId == userId)
    requires forall j | |a| <= j < |b| :: b[j].userId != userId
    ensures SignupIndex(a, userId) == SignupIndex(b, userId)
  {
  }

  lemma FirstHolder(a: seq<Signup>, userId: int, i: nat)
    requires i < |a| && a[i].userId == userId
    requires forall j | 0 <= j < i :: a[j].userId != userId
    ensures SignupIndex(a, userId) == Some(i)
  {
  }

  /** `raid.signups[s.user_id] = s`: an existing entry is replaced in place,
      a new one goes last. */
  function PutSignup(signups: seq<Signup>, s: Signup): (r: seq<Signup>)
    ensures GetSignup(r, s.userId) == Some(s)
    ensures forall u | u != s.userId :: GetSignup(r, u) == GetSignup(signups, u)
    ensures UniqueUsers(signups) ==> UniqueUsers(r)
    ensures forall x | x in r :: x == s || x in signups
    ensures |r| == |signups| + (if GetSignup(signups, s.userId).None? then 1 else 0)
  {
    match SignupIndex(signups, s.userId)
    case Some(i) =>
      var r := signups[i := s];
      FirstHolder(r, s.userId, i);
      forall u | u != s.userId ensures GetSignup(r, u) == GetSignup(signups, u) {
        SameHolders(signups, r, u);
      }
      r
    case None =>
      var r := signups + [s];
      FirstHolder(r, s.userId, |signups|);
      forall u | u != s.userId ensures GetSignup(r, u) == GetSignup(signups, u) {
        SameHolders(signups, r, u);
      }
      r
  }

  /** `del raid.signups[user_id]`. */
  function RemoveSignup(signups: seq<Signup>, userId: int): (r: seq<Signup>)
    ensures forall x :: x in r <==> x in signups && x.userId != userId
    ensures GetSignup(r, userId) == None
    ensures GetSignup(signups, userId) == None ==> r == signups
  {
    if signups == [] then []
    else
      var rest := RemoveSignup(signups[1..], userId);
      assert forall x | x in signups :: x == signups[0] || x in signups[1..];
      if signups[0].userId == userId then rest
      else
        assert GetSignup(signups, userId) == None ==> signups[1..] == rest;
        [signups[0]] + rest
  }

  /** Removing one user leaves every other user's entry as it was. */
  lemma {:induction false} RemoveKeepsOthers(signups: seq<Signup>, userId: int, u: int)
    requires u != userId
    ensures GetSignup(RemoveSignup(signups, userId), u) == GetSignup(signups, u)
  {
    if signups != [] {
      RemoveKeepsOthers(signups[1..], userId, u);
      var rest := RemoveSignup(signups[1..], userId);
      if signups[0].userId == userId {
        GetSignupTail(signups, u);
      } else {
        var r := [signups[0]] + rest;
        assert RemoveSignup(signups, userId) == r;
        if signups[0].userId == u {
          FirstHolder(r, u, 0);
          FirstHolder(signups, u, 0);
        } else {
          assert r[1..] == rest;
          GetSignupTail(r, u);
          GetSignupTail(signups, u);
        }
      }
    }
  }

  lemma GetSignupTail(s: seq<Signup>, u: int)
    requires s != [] && s[0].userId != u
    ensures GetSignup(s, u) == GetSignup(s[1..], u)
  {
    match SignupIndex(s[1..], u)
    case None =>
    case Some(i) => assert s[1..][i] == s[i + 1];
  }

  lemma {:induction false} RemoveKeepsUnique(signups: seq<Signup>, userId: int)
    requires UniqueUsers(signups)
    ensures UniqueUsers(RemoveSignup(signups, userId))
  {
    if signups != [] {
      var tail := signups[1..];
      assert UniqueUsers(tail) by {
        forall i, j | 0 <= i < j < |tail| ensures tail[i].userId != tail[j].userId {
          assert tail[i] == signups[i + 1] && tail[j] == signups[j + 1];
        }
      }
      RemoveKeepsUnique(tail, userId);
      var rest := RemoveSignup(tail, userId);
      if signups[0].userId != userId {
        forall x | x in rest ensures x.userId != signups[0].userId {
          var j :| 0 <= j < |tail| && tail[j] == x;
          assert signups[j + 1] == x;
        }
        UniqueCons(signups[0], rest);
      }
    }
  }

  lemma UniqueCons(x: Signup, rest: seq<Signup>)
    requires UniqueUsers(rest) && forall y | y in rest :: y.userId != x.userId
    ensures UniqueUsers([x] + rest)
  {
    var r := [x] + rest;
    forall i, j | 0 <= i < j < |r| ensures r[i].userId != r[j].userId {
      if i == 0 {
        assert r[j] == rest[j - 1];
      } else {
        assert r[i] == rest[i - 1] && r[j] == rest[j - 1];
      }
    }
  }

  /** A promotion leaves every user's entry in place with the same role,
      power and join time; a waiter may have become main. */
  lemma PromotedGet(a: seq<Signup>, b: seq<Signup>, userId: int)
    requires Promoted(a, b)
    ensures GetSignup(a, userId).Some? == GetSignup(b, userId).Some?
    ensures GetSignup(a, userId).Some? ==>
      var x, y := GetSignup(a, userId).value, GetSignup(b, userId).value;
      y == x || (x.status == Wait && y == x.(status := Main))
  {
    SameHolders(a, b, userId);
  }

  lemma PromotedKeepsUsers(a: seq<Signup>, b: seq<Signup>)
    requires Promoted(a, b)
    ensures UniqueUsers(a) ==> UniqueUsers(b)
    ensures forall j | 0 <= j < |b| :: b[j].userId == a[j].userId
  {
  }
}
