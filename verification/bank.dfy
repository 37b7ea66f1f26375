/** The guild bank: building the per-user deltas of a change (an even split of
    a total, or one flat amount each), the funds check, applying deltas to the
    balances, recording the change, and undoing the caller's latest change
    within the undo window. */
module Bank {
  import opened Base
  import opened Chars
  import opened Seqs
  import opened Entities
  import opened StoreState
  import opened Mentions

  /** Fifteen minutes, in seconds. */
  const UndoWindowSeconds: int := 15 * 60

  /* ---------- building deltas ---------- */

  /** The amount the split gives to the id at position `i` of the sorted list:
      one more than `base` for the first `rem` positions. */
  function ShareAt(i: int, base: int, rem: int): int {
    base + (if i < rem then 1 else 0)
  }

  /** The loop of `compute_split_deltas` over the sorted ids: position `i` gets
      `sign * ShareAt(i)`, a repeated id keeping its last assignment. */
  function EnumerateShares(sorted: seq<int>, base: int, rem: int, sign: int): (d: map<int, int>)
    ensures forall x :: x in d <==> x in sorted
    ensures forall u | u in d :: d[u] == sign * base || d[u] == sign * (base + 1)
  {
    if sorted == [] then map[]
    else
      var j := |sorted| - 1;
      var prev := EnumerateShares(sorted[..j], base, rem, sign);
      assert sorted == sorted[..j] + [sorted[j]];
      prev[sorted[j] := sign * ShareAt(j, base, rem)]
  }

  /** `compute_split_deltas(total, user_ids, sign)`: every id gets `total // n`
      or one more, times `sign`. */
  function ComputeSplitDeltas(total: int, userIds: seq<int>, sign: int): (d: map<int, int>)
    ensures userIds == [] ==> d == map[]
    ensures forall x :: x in d <==> x in userIds
    ensures userIds != [] ==> forall u | u in d ::
                                d[u] == sign * (total / |userIds|) || d[u] == sign * (total / |userIds| + 1)
  {
    if |userIds| <= 0 then map[]
    else
      var n := |userIds|;
      var sorted := SortInts(userIds);
      assert forall x :: x in sorted <==> x in userIds by {
        forall x ensures x in sorted <==> x in userIds {
          assert x in sorted <==> x in multiset(sorted);
          assert x in userIds <==> x in multiset(userIds);
        }
      }
      EnumerateShares(sorted, total / n, total % n, sign)
  }

  lemma {:induction false} EnumerateSharesAt(sorted: seq<int>, base: int, rem: int, sign: int, k: int)
    requires StrictlyIncreasing(sorted) && 0 <= k < |sorted|
    ensures EnumerateShares(sorted, base, rem, sign)[sorted[k]] == sign * ShareAt(k, base, rem)
  {
    var j := |sorted| - 1;
    if k < j {
      assert sorted[..j][k] == sorted[k];
      EnumerateSharesAt(sorted[..j], base, rem, sign, k);
    }
  }

  /** The extra unit goes to the first `total % n` ids in ascending order: with
      distinct ids, the `k`-th smallest id gets `total // n + 1` when
      `k < total % n` and `total // n` otherwise, times `sign`. */
  lemma SplitRank(total: int, userIds: seq<int>, sign: int, k: int)
    requires Distinct(userIds) && 0 <= k < |userIds|
    ensures var sorted := SortInts(userIds); var n := |userIds|;
            ComputeSplitDeltas(total, userIds, sign)[sorted[k]] == sign * ShareAt(k, total / n, total % n)
  {
    var sorted := SortInts(userIds);
    assert ComputeSplitDeltas(total, userIds, sign) == EnumerateShares(sorted, total / |userIds|, total % |userIds|, sign);
    DistinctByMultiset(userIds, sorted);
    SortedDistinctIsIncreasing(sorted);
    EnumerateSharesAt(sorted, total / |userIds|, total % |userIds|, sign, k);
  }

  /** A smaller id never receives a smaller share than a larger one. */
  lemma SplitFavoursSmallerIds(total: int, userIds: seq<int>, u: int, v: int)
    requires Distinct(userIds) && u in userIds && v in userIds && u < v
    ensures var d := ComputeSplitDeltas(total, userIds, 1); d[u] >= d[v]
  {
    var sorted := SortInts(userIds);
    assert multiset(sorted) == multiset(userIds);
    assert u in multiset(sorted) && v in multiset(sorted);
    var i :| 0 <= i < |sorted| && sorted[i] == u;
    var j :| 0 <= j < |sorted| && sorted[j] == v;
    DistinctByMultiset(userIds, sorted);
    SortedDistinctIsIncreasing(sorted);
    SplitRank(total, userIds, 1, i);
    SplitRank(total, userIds, 1, j);
  }

  lemma SumOverOutside(keys: seq<int>, m: map<int, int>, x: int, v: int)
    requires x !in keys
    ensures SumOver(keys, m[x := v]) == SumOver(keys, m)
  {
    if keys != [] {
      SumOverOutside(keys[1..], m, x, v);
    }
  }

  /** The total handed out to the first `m` positions. */
  function SharesTotal(m: nat, base: int, rem: int, sign: int): int {
    if m == 0 then 0 else SharesTotal(m - 1, base, rem, sign) + sign * ShareAt(m - 1, base, rem)
  }

  lemma {:induction false} EnumerateSharesSum(sorted: seq<int>, base: int, rem: int, sign: int)
    requires StrictlyIncreasing(sorted)
    ensures SumOver(sorted, EnumerateShares(sorted, base, rem, sign)) == SharesTotal(|sorted|, base, rem, sign)
    decreases |sorted|
  {
    if sorted != [] {
      var j := |sorted| - 1;
      var init := sorted[..j];
      var x := sorted[j];
      var v := sign * ShareAt(j, base, rem);
      var prev := EnumerateShares(init, base, rem, sign);
      assert sorted == init + [x];
      assert x !in init;
      SumOverConcat(init, [x], prev[x := v]);
      SumOverOutside(init, prev, x, v);
      EnumerateSharesSum(init, base, rem, sign);
    }
  }

  lemma {:induction false} SharesTotalClosed(m: nat, base: int, rem: int, sign: int)
    requires 0 <= rem
    ensures SharesTotal(m, base, rem, sign) == sign * (m * base + Min(m, rem))
  {
    if m > 0 {
      SharesTotalClosed(m - 1, base, rem, sign);
      var a := (m - 1) * base + Min(m - 1, rem);
      var step := ShareAt(m - 1, base, rem);
      assert m * base + Min(m, rem) == a + step;
      assert sign * (a + step) == sign * a + sign * step;
    }
  }

  lemma EuclidStep(total: int, n: int)
    requires n > 0
    ensures n * (total / n) + total % n == total && 0 <= total % n < n
  {
  }

  lemma MulKeepsSign(sign: int, b: int)
    requires b >= 0
    ensures sign > 0 ==> sign * b >= 0
    ensures sign < 0 ==> sign * b <= 0
    ensures sign == 0 ==> sign * b == 0
  {
  }

  lemma SplitTotal(total: int, n: int, sign: int)
    requires n > 0
    ensures SharesTotal(n, total / n, total % n, sign) == sign * total
  {
    EuclidStep(total, n);
    SharesTotalClosed(n, total / n, total % n, sign);
    assert Min(n, total % n) == total % n;
  }

  /** For distinct ids the split deltas add up to `sign * total` (with no ids
      there are no deltas, so the sum is 0). */
  lemma SplitSum(total: int, userIds: seq<int>, sign: int)
    requires Distinct(userIds)
    ensures SumOver(userIds, ComputeSplitDeltas(total, userIds, sign)) == if userIds == [] then 0 else sign * total
  {
    if userIds != [] {
      var n := |userIds|;
      var sorted := SortInts(userIds);
      var d := ComputeSplitDeltas(total, userIds, sign);
      assert d == EnumerateShares(sorted, total / n, total % n, sign);
      DistinctByMultiset(userIds, sorted);
      SortedDistinctIsIncreasing(sorted);
      EnumerateSharesSum(sorted, total / n, total % n, sign);
      SplitTotal(total, n, sign);
      SumOverPermutation(userIds, sorted, d);
    }
  }

  /** With a non-negative total every split delta has the sign of `sign` or is zero. */
  lemma SplitSign(total: int, userIds: seq<int>, sign: int, u: int)
    requires total >= 0 && u in userIds
    ensures var d := ComputeSplitDeltas(total, userIds, sign);
            (sign > 0 ==> d[u] >= 0) && (sign < 0 ==> d[u] <= 0) && (sign == 0 ==> d[u] == 0)
  {
    var n := |userIds|;
    var b := total / n;
    MulKeepsSign(sign, b);
    MulKeepsSign(sign, b + 1);
  }

  lemma SortExample()
    ensures SortInts([1, 2, 3]) == [1, 2, 3]
  {
    SortOfSorted([1, 2, 3]);
  }

  lemma SharesExample()
    ensures EnumerateShares([1, 2, 3], 3, 1, 1) == map[1 := 4, 2 := 3, 3 := 3]
  {
    assert [1, 2, 3][..2] == [1, 2];
    assert [1, 2][..1] == [1];
    assert [1][..0] == [];
  }

  /** Splitting 10 among users 1, 2 and 3 gives `{1: 4, 2: 3, 3: 3}`. */
  lemma SplitExample()
    ensures ComputeSplitDeltas(10, [1, 2, 3], 1) == map[1 := 4, 2 := 3, 3 := 3]
  {
    SortExample();
    SharesExample();
  }

  /** `{uid: sign * amount for uid in ids}`. */
  function FlatDeltas(userIds: seq<int>, perUser: int): (d: map<int, int>)
    ensures forall x :: x in d <==> x in userIds
    ensures forall u | u in d :: d[u] == perUser
  {
    map u | u in userIds :: perUser
  }

  /** Sign of a split change: +1 only for `add_split`. */
  function SplitSignOf(t: BankActionType): int {
    if t == AddSplit then 1 else -1
  }

  /** Sign of a flat change: +1 only for `add`. */
  function FlatSignOf(t: BankActionType): int {
    if t == Add then 1 else -1
  }

  /** The deltas `_bank_change_common` builds for a change. */
  function ChangeDeltas(actionType: BankActionType, amount: int, userIds: seq<int>, split: bool): (d: map<int, int>)
    ensures forall x :: x in d <==> x in userIds
    ensures !split ==> forall u | u in d :: d[u] == FlatSignOf(actionType) * amount
  {
    if split then ComputeSplitDeltas(amount, userIds, SplitSignOf(actionType))
    else FlatDeltas(userIds, FlatSignOf(actionType) * amount)
  }

  lemma {:induction false} EnumerateSharesOpposite(sorted: seq<int>, base: int, rem: int, sign: int, u: int)
    requires u in sorted
    ensures EnumerateShares(sorted, base, rem, -sign)[u] == -EnumerateShares(sorted, base, rem, sign)[u]
  {
    var j := |sorted| - 1;
    if u != sorted[j] {
      assert sorted == sorted[..j] + [sorted[j]];
      EnumerateSharesOpposite(sorted[..j], base, rem, sign, u);
    }
  }

  /** Adding and removing are opposite: an `add` and a `remove` (or an
      `add_split` and a `remove_split`) of the same amount over the same users
      give pointwise opposite deltas. */
  lemma AddRemoveOpposite(amount: int, userIds: seq<int>, u: int)
    requires u in userIds
    ensures ChangeDeltas(Add, amount, userIds, false)[u] == -ChangeDeltas(Remove, amount, userIds, false)[u]
    ensures ChangeDeltas(AddSplit, amount, userIds, true)[u] == -ChangeDeltas(RemoveSplit, amount, userIds, true)[u]
  {
    var n := |userIds|;
    var sorted := SortInts(userIds);
    assert u in multiset(userIds);
    assert u in sorted by { assert u in multiset(sorted); }
    EnumerateSharesOpposite(sorted, amount / n, amount % n, 1, u);
  }

  /* ---------- the funds check ---------- */

  /** The first user, in ascending id order, whose balance would go negative. */
  datatype Shortfall = Shortfall(userId: int, balance: int, delta: int)

  /** The refusal text of `can_apply_deltas`. */
  function ShortfallMessage(s: Shortfall): string {
    "Solde insuffisant pour " + Mention(s.userId) + " (bal=" + IntToString(s.balance)
      + ", delta=" + IntToString(s.delta) + ")."
  }

  predicate Covered(st: Store, guildId: int, deltas: map<int, int>, u: int)
    requires u in deltas
  {
    GetBalance(st, guildId, u) + deltas[u] >= 0
  }

  /** The position, in `keys`, of the first user whose balance would go negative. */
  function FirstShortfallIndex(st: Store, guildId: int, keys: seq<int>, deltas: map<int, int>): (r: Option<nat>)
    requires forall k | 0 <= k < |keys| :: keys[k] in deltas
    ensures r.Some? ==> r.value < |keys| && !Covered(st, guildId, deltas, keys[r.value])
    ensures r.Some? ==> forall k | 0 <= k < r.value :: Covered(st, guildId, deltas, keys[k])
    ensures r.None? ==> forall k | 0 <= k < |keys| :: Covered(st, guildId, deltas, keys[k])
  {
    if keys == [] then None
    else if !Covered(st, guildId, deltas, keys[0]) then Some(0)
    else match FirstShortfallIndex(st, guildId, keys[1..], deltas)
      case None => None
      case Some(k) => Some(k + 1)
  }

  /** The targets of `deltas` in ascending order. */
  function SortedTargets(deltas: map<int, int>): (keys: seq<int>)
    ensures StrictlyIncreasing(keys) && (forall x :: x in keys <==> x in deltas)
    ensures forall k | 0 <= k < |keys| :: keys[k] in deltas
  {
    SortedFromSet(deltas.Keys)
  }

  /** The smallest target whose balance plus delta would be negative, or
      None exactly when every target is covered. */
  function FirstShortfall(st: Store, guildId: int, deltas: map<int, int>): (r: Option<int>)
    ensures r.None? <==> forall u | u in deltas :: Covered(st, guildId, deltas, u)
    ensures r.Some? ==> r.value in deltas && !Covered(st, guildId, deltas, r.value)
    ensures r.Some? ==> forall v | v in deltas && v < r.value :: Covered(st, guildId, deltas, v)
  {
    var keys := SortedTargets(deltas);
    var i := FirstShortfallIndex(st, guildId, keys, deltas);
    ShortfallOfKeys(st, guildId, deltas, keys, i);
    if i.None? then None else Some(keys[i.value])
  }

  /** The first uncovered position of the ascending targets is the smallest
      uncovered target. */
  lemma ShortfallOfKeys(st: Store, guildId: int, deltas: map<int, int>, keys: seq<int>, i: Option<nat>)
    requires StrictlyIncreasing(keys) && (forall x :: x in keys <==> x in deltas)
    requires forall k | 0 <= k < |keys| :: keys[k] in deltas
    requires i == FirstShortfallIndex(st, guildId, keys, deltas)
    ensures i.None? <==> forall u | u in deltas :: Covered(st, guildId, deltas, u)
    ensures i.Some? ==> i.value < |keys| && !Covered(st, guildId, deltas, keys[i.value])
    ensures i.Some? ==> forall v | v in deltas && v < keys[i.value] :: Covered(st, guildId, deltas, v)
  {
    if i.None? {
      CoveredByKeys(st, guildId, deltas, keys);
    } else {
      CoveredBelow(st, guildId, deltas, keys, i.value);
    }
  }

  /** `can_apply_deltas`: always fine when negative balances are allowed;
      otherwise refused exactly when some target would end below zero, naming
      the smallest such user id with its balance and delta. */
  function CanApplyDeltas(st: Store, guildId: int, deltas: map<int, int>, allowNegative: bool): (r: Outcome<(), Shortfall>)
    ensures allowNegative ==> r.Ok?
    ensures r.Ok? <==> (allowNegative || forall u | u in deltas :: Covered(st, guildId, deltas, u))
    ensures r.Err? ==> r.error.userId in deltas && r.error.delta == deltas[r.error.userId]
    ensures r.Err? ==> r.error.balance == GetBalance(st, guildId, r.error.userId) && r.error.balance + r.error.delta < 0
    ensures r.Err? ==> forall v | v in deltas && v < r.error.userId :: Covered(st, guildId, deltas, v)
  {
    if allowNegative then Ok(())
    else
      match FirstShortfall(st, guildId, deltas)
      case None => Ok(())
      case Some(u) => Err(Shortfall(u, GetBalance(st, guildId, u), deltas[u]))
  }

  lemma CoveredByKeys(st: Store, guildId: int, deltas: map<int, int>, keys: seq<int>)
    requires forall x :: x in keys <==> x in deltas
    requires forall k | 0 <= k < |keys| :: keys[k] in deltas && Covered(st, guildId, deltas, keys[k])
    ensures forall u | u in deltas :: Covered(st, guildId, deltas, u)
  {
    forall u | u in deltas ensures Covered(st, guildId, deltas, u) {
      var k :| 0 <= k < |keys| && keys[k] == u;
    }
  }

  /** Below the first uncovered key of an ascending key list, every target is covered. */
  lemma CoveredBelow(st: Store, guildId: int, deltas: map<int, int>, keys: seq<int>, i: nat)
    requires StrictlyIncreasing(keys) && (forall x :: x in keys <==> x in deltas)
    requires i < |keys|
    requires forall k | 0 <= k < i :: keys[k] in deltas && Covered(st, guildId, deltas, keys[k])
    ensures forall v | v in deltas && v < keys[i] :: Covered(st, guildId, deltas, v)
  {
    forall v | v in deltas && v < keys[i] ensures Covered(st, guildId, deltas, v) {
      var k :| 0 <= k < |keys| && keys[k] == v;
      IncreasingOrder(keys, i, k);
    }
  }

  /* ---------- applying deltas ---------- */

  function ApplyKeys(st: Store, guildId: int, keys: seq<int>, deltas: map<int, int>): (r: Store)
    requires Distinct(keys) && forall k | 0 <= k < |keys| :: keys[k] in deltas
    ensures forall u :: GetBalance(r, guildId, u) ==
                        GetBalance(st, guildId, u) + (if u in keys then deltas[u] else 0)
    ensures forall g, u | g != guildId :: GetBalance(r, g, u) == GetBalance(st, g, u)
    ensures r.(balances := st.balances) == st
    decreases |keys|
  {
    if keys == [] then st
    else
      var u := keys[0];
      var st1 := SetBalance(st, guildId, u, GetBalance(st, guildId, u) + deltas[u]);
      assert forall x :: x in keys <==> x == u || x in keys[1..] by {
        assert keys == [u] + keys[1..];
      }
      assert u !in keys[1..];
      ApplyKeys(st1, guildId, keys[1..], deltas)
  }

  /** `apply_deltas`: each target's balance rises by exactly its delta; every
      other balance, in this guild or any other, is unchanged. */
  function ApplyDeltas(st: Store, guildId: int, deltas: map<int, int>): (r: Store)
    ensures forall u :: GetBalance(r, guildId, u) == GetBalance(st, guildId, u) + ValueOr0(deltas, u)
    ensures forall g, u | g != guildId :: GetBalance(r, g, u) == GetBalance(st, g, u)
    ensures r.(balances := st.balances) == st
  {
    var keys := SortedFromSet(deltas.Keys);
    KeysFit(deltas, keys);
    var r := ApplyKeys(st, guildId, keys, deltas);
    KeysCoverDeltas(st, r, guildId, keys, deltas);
    r
  }

  lemma KeysFit(deltas: map<int, int>, keys: seq<int>)
    requires StrictlyIncreasing(keys) && forall x :: x in keys <==> x in deltas.Keys
    ensures Distinct(keys) && forall k | 0 <= k < |keys| :: keys[k] in deltas
  {
    assert forall k | 0 <= k < |keys| :: keys[k] in keys;
  }

  lemma KeysCoverDeltas(st: Store, r: Store, guildId: int, keys: seq<int>, deltas: map<int, int>)
    requires forall x :: x in keys <==> x in deltas.Keys
    requires forall u :: GetBalance(r, guildId, u) == GetBalance(st, guildId, u) + (if u in keys then deltas[u] else 0)
    ensures forall u :: GetBalance(r, guildId, u) == GetBalance(st, guildId, u) + ValueOr0(deltas, u)
  {
    forall u ensures GetBalance(r, guildId, u) == GetBalance(st, guildId, u) + ValueOr0(deltas, u) {
      assert (u in keys) == (u in deltas);
    }
  }

  /** The reverse of a change: `{uid: -delta}`. */
  function Negate(deltas: map<int, int>): (r: map<int, int>)
    ensures forall u :: u in r <==> u in deltas
    ensures forall u | u in r :: r[u] == -deltas[u]
  {
    map u | u in deltas :: -deltas[u]
  }

  /** Applying a change and then its reverse restores every balance. */
  lemma ApplyThenReverse(st: Store, guildId: int, deltas: map<int, int>)
    ensures var back := ApplyDeltas(ApplyDeltas(st, guildId, deltas), guildId, Negate(deltas));
            forall g, u :: GetBalance(back, g, u) == GetBalance(st, g, u)
  {
    var mid := ApplyDeltas(st, guildId, deltas);
    var back := ApplyDeltas(mid, guildId, Negate(deltas));
    forall g, u ensures GetBalance(back, g, u) == GetBalance(st, g, u) {
      if g == guildId {
        assert ValueOr0(Negate(deltas), u) == -ValueOr0(deltas, u);
      }
    }
  }

  /* ---------- recording a change ---------- */

  datatype ChangeError = Forbidden | InvalidAmount | NoTargets | Insufficient(shortfall: Shortfall)

  /** The locked part of `_bank_change_common`, together with the checks made
      before it. `canManage` is the bank-manager permission of the caller and
      `userIds` the resolved targets (sorted, without duplicates, as the target
      resolution returns them). On success the deltas are applied and the new
      action is appended; an error carries no new state, so nothing changes. */
  function BankChange(st: Store, canManage: bool, guildId: int, actorId: int, actionType: BankActionType,
                      amount: int, userIds: seq<int>, note: string, split: bool, allowNegative: bool,
                      actionId: string, now: int): (r: Outcome<(Store, BankAction), ChangeError>)
    ensures r == Err(Forbidden) <==> !canManage
    ensures r == Err(InvalidAmount) <==> (canManage && amount < 0)
    ensures r == Err(NoTargets) <==> (canManage && amount >= 0 && userIds == [])
    ensures (r.Err? && r.error.Insufficient?) <==>
            (canManage && amount >= 0 && userIds != []
             && CanApplyDeltas(st, guildId, ChangeDeltas(actionType, amount, userIds, split), allowNegative).Err?)
    ensures r.Ok? ==> (r.value.1 == BankAction(actionId, guildId, actorId, now, actionType,
                                               ChangeDeltas(actionType, amount, userIds, split), Strip(note), false, None))
    ensures r.Ok? ==> forall u :: GetBalance(r.value.0, guildId, u) == GetBalance(st, guildId, u) + ValueOr0(r.value.1.deltas, u)
    ensures r.Ok? ==> forall g, u | g != guildId :: GetBalance(r.value.0, g, u) == GetBalance(st, g, u)
    ensures r.Ok? ==> GuildActions(r.value.0, guildId) == Bounded(GuildActions(st, guildId) + [r.value.1], st.actionLogLimit)
    ensures r.Ok? ==> forall g | g != guildId :: GuildActions(r.value.0, g) == GuildActions(st, g)
    ensures r.Ok? ==> r.value.0.(balances := st.balances, actionLogs := st.actionLogs) == st
  {
    if !canManage then Err(Forbidden)
    else if amount < 0 then Err(InvalidAmount)
    else if userIds == [] then Err(NoTargets)
    else
      var d := ChangeDeltas(actionType, amount, userIds, split);
      match CanApplyDeltas(st, guildId, d, allowNegative)
      case Err(s) => Err(Insufficient(s))
      case Ok(_) =>
        var a := BankAction(actionId, guildId, actorId, now, actionType, d, Strip(note), false, None);
        Ok((CommitAction(st, a), a))
  }

  /** The balances move by the action's deltas, then the action is logged. */
  function CommitAction(st: Store, a: BankAction): (r: Store)
    ensures forall u :: GetBalance(r, a.guildId, u) == GetBalance(st, a.guildId, u) + ValueOr0(a.deltas, u)
    ensures forall g, u | g != a.guildId :: GetBalance(r, g, u) == GetBalance(st, g, u)
    ensures GuildActions(r, a.guildId) == Bounded(GuildActions(st, a.guildId) + [a], st.actionLogLimit)
    ensures forall g | g != a.guildId :: GuildActions(r, g) == GuildActions(st, g)
    ensures r.(balances := st.balances, actionLogs := st.actionLogs) == st
  {
    var applied := ApplyDeltas(st, a.guildId, a.deltas);
    var r := AppendAction(applied, a);
    CommitFacts(st, applied, r, a);
    r
  }

  lemma CommitFacts(st: Store, applied: Store, r: Store, a: BankAction)
    requires forall u :: GetBalance(applied, a.guildId, u) == GetBalance(st, a.guildId, u) + ValueOr0(a.deltas, u)
    requires forall g, u | g != a.guildId :: GetBalance(applied, g, u) == GetBalance(st, g, u)
    requires applied.(balances := st.balances) == st
    requires GuildActions(r, a.guildId) == Bounded(GuildActions(applied, a.guildId) + [a], applied.actionLogLimit)
    requires forall g | g != a.guildId :: GuildActions(r, g) == GuildActions(applied, g)
    requires r.(actionLogs := applied.actionLogs) == applied
    ensures forall u :: GetBalance(r, a.guildId, u) == GetBalance(st, a.guildId, u) + ValueOr0(a.deltas, u)
    ensures forall g, u | g != a.guildId :: GetBalance(r, g, u) == GetBalance(st, g, u)
    ensures GuildActions(r, a.guildId) == Bounded(GuildActions(st, a.guildId) + [a], st.actionLogLimit)
    ensures forall g | g != a.guildId :: GuildActions(r, g) == GuildActions(st, g)
  {
    assert r.balances == applied.balances;
    SameBalances(applied, r);
    assert applied.actionLogs == st.actionLogs && applied.actionLogLimit == st.actionLogLimit;
    SameLogs(st, applied);
  }

  lemma SameBalances(x: Store, y: Store)
    requires x.balances == y.balances
    ensures forall g, u :: GetBalance(y, g, u) == GetBalance(x, g, u)
  {
  }

  lemma SameLogs(x: Store, y: Store)
    requires x.actionLogs == y.actionLogs
    ensures forall g :: GuildActions(y, g) == GuildActions(x, g)
  {
  }

  /* ---------- undo ---------- */

  datatype UndoError = UndoForbidden | NothingToUndo | TooLate | UndoInsufficient(shortfall: Shortfall)

  /** The locked part of `bank_undo`: the caller's latest action that is not
      undone is reversed, provided it is at most fifteen minutes old and the
      reverse passes the funds check; it is then marked undone at `now`, both
      where it was found and at the first action bearing its id. */
  function BankUndo(st: Store, canManage: bool, guildId: int, actorId: int, allowNegative: bool, now: int)
    : (r: Outcome<(Store, BankAction), UndoError>)
    ensures r == Err(UndoForbidden) <==> !canManage
    ensures r == Err(NothingToUndo) <==> (canManage && FindLastAction(st, guildId, actorId).None?)
    ensures r == Err(TooLate) <==>
            (canManage && FindLastAction(st, guildId, actorId).Some?
             && now - FindLastAction(st, guildId, actorId).value.createdAt > UndoWindowSeconds)
    ensures (r.Err? && r.error.UndoInsufficient?) <==>
            (canManage && FindLastAction(st, guildId, actorId).Some?
             && now - FindLastAction(st, guildId, actorId).value.createdAt <= UndoWindowSeconds
             && CanApplyDeltas(st, guildId, Negate(FindLastAction(st, guildId, actorId).value.deltas), allowNegative).Err?)
    ensures r.Ok? ==> FindLastAction(st, guildId, actorId).Some?
    ensures r.Ok? ==> r.value.1 == MarkUndone(FindLastAction(st, guildId, actorId).value, now)
    ensures r.Ok? ==> forall u :: GetBalance(r.value.0, guildId, u) == GetBalance(st, guildId, u) - ValueOr0(r.value.1.deltas, u)
    ensures r.Ok? ==> forall g, u | g != guildId :: GetBalance(r.value.0, g, u) == GetBalance(st, g, u)
    ensures r.Ok? ==>
            var k := LastUndoableIndex(GuildActions(st, guildId), actorId).value;
            && |GuildActions(r.value.0, guildId)| == |GuildActions(st, guildId)|
            && GuildActions(r.value.0, guildId)[k] == r.value.1
    ensures r.Ok? ==> r.value.0.(balances := st.balances, actionLogs := st.actionLogs) == st
    ensures r.Ok? ==>
            var k := LastUndoableIndex(GuildActions(st, guildId), actorId).value;
            MarkedAt(st.actionLogs, r.value.0.actionLogs, UndoSpots(st, guildId, k), now)
  {
    if !canManage then Err(UndoForbidden)
    else
      var list := GuildActions(st, guildId);
      match LastUndoableIndex(list, actorId)
      case None => Err(NothingToUndo)
      case Some(k) =>
        var a := list[k];
        if now - a.createdAt > UndoWindowSeconds then Err(TooLate)
        else
          var reverse := Negate(a.deltas);
          match CanApplyDeltas(st, guildId, reverse, allowNegative)
          case Err(s) => Err(UndoInsufficient(s))
          case Ok(_) => Ok(UndoCommit(st, guildId, k, now))
  }

  /** The changes `bank_undo` makes once every check has passed: the reverse of
      the action at position `k` of the guild's list is applied, that action is
      marked undone at `now`, and so is the first action bearing its id. No
      other entry of any log, and nothing but balances and logs, changes. */
  function UndoCommit(st: Store, guildId: int, k: nat, now: int): (r: (Store, BankAction))
    requires k < |GuildActions(st, guildId)|
    ensures var a := GuildActions(st, guildId)[k];
            r.1 == MarkUndone(a, now)
            && (forall u :: GetBalance(r.0, guildId, u) == GetBalance(st, guildId, u) - ValueOr0(a.deltas, u))
            && (forall g, u | g != guildId :: GetBalance(r.0, g, u) == GetBalance(st, g, u))
            && |GuildActions(r.0, guildId)| == |GuildActions(st, guildId)|
            && GuildActions(r.0, guildId)[k] == r.1
    ensures r.0.(balances := st.balances, actionLogs := st.actionLogs) == st
    ensures MarkedAt(st.actionLogs, r.0.actionLogs, UndoSpots(st, guildId, k), now)
  {
    var a := GuildActions(st, guildId)[k];
    var reverse := Negate(a.deltas);
    var st1 := ApplyDeltas(st, guildId, reverse);
    assert st1.actionLogs == st.actionLogs;
    assert UndoSpots(st1, guildId, k) == UndoSpots(st, guildId, k);
    var st3 := MarkBoth(st1, guildId, k, now);
    UndoneStore(st, st1, st3, guildId, a);
    (st3, MarkUndone(a, now))
  }

  /** Balances after the reverse deltas and the marking: each of the guild's
      balances is down by the action's delta, other guilds are untouched. */
  lemma UndoneStore(st: Store, st1: Store, st3: Store, guildId: int, a: BankAction)
    requires forall u :: GetBalance(st1, guildId, u) == GetBalance(st, guildId, u) + ValueOr0(Negate(a.deltas), u)
    requires forall g, u | g != guildId :: GetBalance(st1, g, u) == GetBalance(st, g, u)
    requires st3.balances == st1.balances
    ensures forall u :: GetBalance(st3, guildId, u) == GetBalance(st, guildId, u) - ValueOr0(a.deltas, u)
    ensures forall g, u | g != guildId :: GetBalance(st3, g, u) == GetBalance(st, g, u)
  {
    var reverse := Negate(a.deltas);
    assert forall u :: ValueOr0(reverse, u) == -ValueOr0(a.deltas, u);
    assert forall g, u :: GetBalance(st3, g, u) == GetBalance(st1, g, u);
  }

  /** The place `bank_mark_action_undone` marks, as a (list, entry) pair: the
      first action bearing the id, or no place at all. */
  function FirstWithId(logs: seq<GuildLog>, actionId: string): set<(int, int)> {
    match LocateAction(logs, actionId)
    case None => {}
    case Some(p) => {(p.0 as int, p.1 as int)}
  }

  /** The places an undo of entry `k` of the guild's list marks: that entry,
      found through the guild's list, and the first entry bearing its id. */
  function UndoSpots(st: Store, guildId: int, k: nat): set<(int, int)>
    requires k < |GuildActions(st, guildId)|
  {
    {(LogIndex(st.actionLogs, guildId).value as int, k as int)}
      + FirstWithId(st.actionLogs, GuildActions(st, guildId)[k].actionId)
  }

  /** `after` is `before` with the entries at `spots` marked undone at `at`, and
      every other entry, every list length and every guild key as it was. */
  predicate MarkedAt(before: seq<GuildLog>, after: seq<GuildLog>, spots: set<(int, int)>, at: int) {
    && |after| == |before|
    && (forall i | 0 <= i < |before| ::
          after[i].guildId == before[i].guildId && |after[i].actions| == |before[i].actions|)
    && (forall i, j | 0 <= i < |before| && 0 <= j < |before[i].actions| ::
          after[i].actions[j] == if (i, j) in spots then MarkUndone(before[i].actions[j], at) else before[i].actions[j])
  }

  /** Marks position `k` of the guild's list undone at `now`, then the first
      action bearing its id; balances are untouched. */
  function MarkBoth(st: Store, guildId: int, k: nat, now: int): (r: Store)
    requires k < |GuildActions(st, guildId)|
    ensures r.(actionLogs := st.actionLogs) == st
    ensures MarkedAt(st.actionLogs, r.actionLogs, UndoSpots(st, guildId, k), now)
    ensures |GuildActions(r, guildId)| == |GuildActions(st, guildId)|
    ensures GuildActions(r, guildId)[k] == MarkUndone(GuildActions(st, guildId)[k], now)
  {
    var i := LogIndex(st.actionLogs, guildId).value;
    var actionId := GuildActions(st, guildId)[k].actionId;
    var st2 := MarkAt(st, i, k, now);
    var st3 := MarkActionUndone(st2, actionId, now);
    MarkAtMarks(st, i, k, now);
    SameIdsLocate(st.actionLogs, st2.actionLogs, actionId);
    MarkActionUndoneMarks(st2, actionId, now);
    MarkTwice(st.actionLogs, st2.actionLogs, st3.actionLogs, (i as int, k as int), FirstWithId(st2.actionLogs, actionId), now);
    MarkedGuild(st, st3, UndoSpots(st, guildId, k), now, guildId);
    st3
  }

  /** Marks position `k` of log `i` undone at `at`: the direct update of the
      action object that the lookup returned. */
  function MarkAt(st: Store, i: nat, k: nat, at: int): (r: Store)
    requires i < |st.actionLogs| && k < |st.actionLogs[i].actions|
    ensures |r.actionLogs| == |st.actionLogs|
    ensures forall j | 0 <= j < |st.actionLogs| :: r.actionLogs[j].guildId == st.actionLogs[j].guildId
    ensures forall j | 0 <= j < |st.actionLogs| && j != i :: r.actionLogs[j] == st.actionLogs[j]
    ensures r.actionLogs[i].actions == st.actionLogs[i].actions[k := MarkUndone(st.actionLogs[i].actions[k], at)]
    ensures r.(actionLogs := st.actionLogs) == st
  {
    var log := st.actionLogs[i];
    st.(actionLogs := st.actionLogs[i := log.(actions := log.actions[k := MarkUndone(log.actions[k], at)])])
  }

  lemma MarkAtMarks(st: Store, i: nat, k: nat, at: int)
    requires i < |st.actionLogs| && k < |st.actionLogs[i].actions|
    ensures MarkedAt(st.actionLogs, MarkAt(st, i, k, at).actionLogs, {(i as int, k as int)}, at)
  {
  }

  lemma MarkActionUndoneMarks(st: Store, actionId: string, at: int)
    ensures MarkedAt(st.actionLogs, MarkActionUndone(st, actionId, at).actionLogs, FirstWithId(st.actionLogs, actionId), at)
  {
  }

  /** Marking twice at the same time marks the union of the places; a place
      marked twice is marked once. */
  lemma MarkTwice(before: seq<GuildLog>, mid: seq<GuildLog>, after: seq<GuildLog>,
                  spot: (int, int), spots: set<(int, int)>, at: int)
    requires MarkedAt(before, mid, {spot}, at)
    requires MarkedAt(mid, after, spots, at)
    ensures MarkedAt(before, after, {spot} + spots, at)
  {
  }

  /** Two logs with the same guilds, lengths and ids locate an id at the same place. */
  lemma {:induction false} SameIdsLocate(logs: seq<GuildLog>, logs': seq<GuildLog>, actionId: string)
    requires |logs'| == |logs|
    requires forall i | 0 <= i < |logs| :: SameIds(logs[i].actions, logs'[i].actions)
    ensures LocateAction(logs', actionId) == LocateAction(logs, actionId)
  {
    if logs != [] {
      SameIdsIndex(logs[0].actions, logs'[0].actions, actionId);
      assert forall i | 0 <= i < |logs| - 1 :: logs[1..][i] == logs[i + 1] && logs'[1..][i] == logs'[i + 1];
      SameIdsLocate(logs[1..], logs'[1..], actionId);
    }
  }

  predicate SameIds(actions: seq<BankAction>, actions': seq<BankAction>) {
    |actions'| == |actions| && forall j | 0 <= j < |actions| :: actions'[j].actionId == actions[j].actionId
  }

  lemma {:induction false} SameIdsIndex(actions: seq<BankAction>, actions': seq<BankAction>, actionId: string)
    requires SameIds(actions, actions')
    ensures ActionIndexById(actions', actionId) == ActionIndexById(actions, actionId)
  {
    if actions != [] {
      assert SameIds(actions[1..], actions'[1..]) by {
        assert forall j | 0 <= j < |actions| - 1 :: actions[1..][j] == actions[j + 1] && actions'[1..][j] == actions'[j + 1];
      }
      SameIdsIndex(actions[1..], actions'[1..], actionId);
    }
  }

  /** What marking does to one guild's list, seen through the lookup by guild. */
  lemma MarkedGuild(st: Store, r: Store, spots: set<(int, int)>, at: int, g: int)
    requires MarkedAt(st.actionLogs, r.actionLogs, spots, at)
    ensures LogIndex(r.actionLogs, g) == LogIndex(st.actionLogs, g)
    ensures |GuildActions(r, g)| == |GuildActions(st, g)|
    ensures LogIndex(st.actionLogs, g).Some? ==>
            forall j | 0 <= j < |GuildActions(st, g)| ::
              GuildActions(r, g)[j] == if (LogIndex(st.actionLogs, g).value as int, j) in spots
                                       then MarkUndone(GuildActions(st, g)[j], at) else GuildActions(st, g)[j]
  {
    SameShapeSameIndex(st.actionLogs, r.actionLogs, g);
  }

  /** With the ids of the guild's list distinct, an undo marks only the entry it
      reverses; the actor's latest undoable action is then the one before it,
      so a second undo reverses the actor's previous action. `after` is any
      store marked as `BankUndo` and `UndoCommit` ensure. Action ids are the
      creation time in milliseconds, so two actions of one millisecond share one
      and the premise can fail. */
  lemma SecondUndo(st: Store, guildId: int, actorId: int, now: int, k: nat, after: Store)
    requires LastUndoableIndex(GuildActions(st, guildId), actorId) == Some(k)
    requires DistinctActionIds(GuildActions(st, guildId))
    requires MarkedAt(st.actionLogs, after.actionLogs, UndoSpots(st, guildId, k), now)
    ensures GuildActions(after, guildId) == GuildActions(st, guildId)[k := MarkUndone(GuildActions(st, guildId)[k], now)]
    ensures LastUndoableIndex(GuildActions(after, guildId), actorId) == LastUndoableIndex(GuildActions(st, guildId)[..k], actorId)
  {
    var list := GuildActions(st, guildId);
    OnlyUndoneMarked(st, after, guildId, k, now);
    var list' := GuildActions(after, guildId);
    assert list'[..k] == list[..k];
    LastUndoableBefore(list', actorId, k);
  }

  /** With distinct ids, the undo's marks hit the guild's list only at `k`. */
  lemma OnlyUndoneMarked(st: Store, r: Store, guildId: int, k: nat, now: int)
    requires k < |GuildActions(st, guildId)|
    requires DistinctActionIds(GuildActions(st, guildId))
    requires MarkedAt(st.actionLogs, r.actionLogs, UndoSpots(st, guildId, k), now)
    ensures var list := GuildActions(st, guildId);
            GuildActions(r, guildId) == list[k := MarkUndone(list[k], now)]
  {
    var list := GuildActions(st, guildId);
    var spots := UndoSpots(st, guildId, k);
    var i := LogIndex(st.actionLogs, guildId).value;
    MarkedGuild(st, r, spots, now, guildId);
    var list' := GuildActions(r, guildId);
    forall j | 0 <= j < |list| && j != k
      ensures list'[j] == list[j]
    {
      assert (i as int, j) !in spots;
    }
  }

  predicate DistinctActionIds(actions: seq<BankAction>) {
    forall j, j' | 0 <= j < j' < |actions| :: actions[j].actionId != actions[j'].actionId
  }

  /** When nothing from position `k` on is undoable by the actor, the lookup
      only sees the list before `k`. */
  lemma {:induction false} LastUndoableBefore(s: seq<BankAction>, actor: int, k: nat)
    requires k <= |s|
    requires forall j | k <= j < |s| :: !UndoableBy(s[j], actor)
    ensures LastUndoableIndex(s, actor) == LastUndoableIndex(s[..k], actor)
  {
    if k < |s| {
      var init := s[..|s| - 1];
      assert init[..k] == s[..k];
      LastUndoableBefore(init, actor, k);
    } else {
      assert s[..k] == s;
    }
  }

  /** Two logs listing the same guilds in the same order find a guild at the same place. */
  lemma {:induction false} SameShapeSameIndex(logs: seq<GuildLog>, logs': seq<GuildLog>, g: int)
    requires |logs'| == |logs|
    requires forall j | 0 <= j < |logs| :: logs'[j].guildId == logs[j].guildId
    ensures LogIndex(logs', g) == LogIndex(logs, g)
  {
    if logs != [] && logs[0].guildId != g {
      assert forall j | 0 <= j < |logs| - 1 :: logs'[1..][j].guildId == logs[1..][j].guildId by {
        assert forall j | 0 <= j < |logs| - 1 :: logs'[1..][j] == logs'[j + 1] && logs[1..][j] == logs[j + 1];
      }
      SameShapeSameIndex(logs[1..], logs'[1..], g);
    }
  }

  /** `bank_mark_action_undone` keeps the shape of the log and leaves an action
      already marked undone at the same time exactly as it was. */
  lemma MarkActionUndoneKeeps(st: Store, actionId: string, at: int, i: nat, k: nat)
    requires i < |st.actionLogs| && k < |st.actionLogs[i].actions|
    requires st.actionLogs[i].actions[k] == MarkUndone(st.actionLogs[i].actions[k], at)
    ensures var r := MarkActionUndone(st, actionId, at);
            && |r.actionLogs| == |st.actionLogs|
            && (forall j | 0 <= j < |st.actionLogs| :: r.actionLogs[j].guildId == st.actionLogs[j].guildId)
            && |r.actionLogs[i].actions| == |st.actionLogs[i].actions|
            && r.actionLogs[i].actions[k] == st.actionLogs[i].actions[k]
            && r.balances == st.balances
  {
  }

  /** An action just recorded can be undone at once: within the window, and
      when negative balances are allowed or no target started below zero, the
      undo succeeds and every balance is back to what it was before the change. */
  lemma ChangeThenUndo(st: Store, guildId: int, actorId: int, actionType: BankActionType, amount: int,
                       userIds: seq<int>, note: string, split: bool, allowNegative: bool,
                       actionId: string, now: int, later: int)
    requires BankChange(st, true, guildId, actorId, actionType, amount, userIds, note, split, allowNegative, actionId, now).Ok?
    requires st.actionLogLimit >= 0
    requires later - now <= UndoWindowSeconds
    requires allowNegative || forall u | u in userIds :: GetBalance(st, guildId, u) >= 0
    ensures var (st1, _) := BankChange(st, true, guildId, actorId, actionType, amount, userIds, note, split, allowNegative, actionId, now).value;
            var u := BankUndo(st1, true, guildId, actorId, allowNegative, later);
            u.Ok? && forall g, v :: GetBalance(u.value.0, g, v) == GetBalance(st, g, v)
  {
    var r := BankChange(st, true, guildId, actorId, actionType, amount, userIds, note, split, allowNegative, actionId, now);
    var st1 := r.value.0;
    var a := r.value.1;
    assert a.actorId == actorId && !a.undone && a.createdAt == now;
    assert forall u | u in a.deltas :: u in userIds;
    UndoAfterChange(st, st1, a, guildId, actorId, allowNegative, later);
  }

  /** The store after appending the caller's fresh action `a`: undoing at
      `later` reverses exactly `a`. */
  lemma UndoAfterChange(st: Store, st1: Store, a: BankAction, guildId: int, actorId: int, allowNegative: bool, later: int)
    requires st.actionLogLimit >= 0
    requires UndoableBy(a, actorId) && later - a.createdAt <= UndoWindowSeconds
    requires GuildActions(st1, guildId) == Bounded(GuildActions(st, guildId) + [a], st.actionLogLimit)
    requires forall u :: GetBalance(st1, guildId, u) == GetBalance(st, guildId, u) + ValueOr0(a.deltas, u)
    requires forall g, u | g != guildId :: GetBalance(st1, g, u) == GetBalance(st, g, u)
    requires allowNegative || forall u | u in a.deltas :: GetBalance(st, guildId, u) >= 0
    ensures var u := BankUndo(st1, true, guildId, actorId, allowNegative, later);
            u.Ok? && forall g, v :: GetBalance(u.value.0, g, v) == GetBalance(st, g, v)
  {
    var list := GuildActions(st1, guildId);
    BoundedKeepsLast(GuildActions(st, guildId) + [a], st.actionLogLimit);
    assert list[|list| - 1] == a;
    ReverseCovered(st, st1, guildId, a.deltas, allowNegative);
    UndoRestores(st, st1, guildId, actorId, allowNegative, later, |list| - 1);
  }

  /** The reverse of a change passes the funds check when every target's
      balance before the change was non-negative. */
  lemma ReverseCovered(st: Store, st1: Store, guildId: int, deltas: map<int, int>, allowNegative: bool)
    requires forall u :: GetBalance(st1, guildId, u) == GetBalance(st, guildId, u) + ValueOr0(deltas, u)
    requires allowNegative || forall u | u in deltas :: GetBalance(st, guildId, u) >= 0
    ensures CanApplyDeltas(st1, guildId, Negate(deltas), allowNegative).Ok?
  {
    var reverse := Negate(deltas);
    if !allowNegative {
      forall v | v in reverse ensures Covered(st1, guildId, reverse, v) {
        assert GetBalance(st1, guildId, v) == GetBalance(st, guildId, v) + deltas[v];
      }
    }
  }

  /** Undoing the newest undoable action, in time and with the funds check
      passed, brings every balance back to `st`'s. */
  lemma UndoRestores(st: Store, st1: Store, guildId: int, actorId: int, allowNegative: bool, later: int, k: nat)
    requires k < |GuildActions(st1, guildId)|
    requires UndoableBy(GuildActions(st1, guildId)[k], actorId)
    requires forall j | k < j < |GuildActions(st1, guildId)| :: !UndoableBy(GuildActions(st1, guildId)[j], actorId)
    requires later - GuildActions(st1, guildId)[k].createdAt <= UndoWindowSeconds
    requires var d := GuildActions(st1, guildId)[k].deltas;
             && CanApplyDeltas(st1, guildId, Negate(d), allowNegative).Ok?
             && (forall u :: GetBalance(st1, guildId, u) == GetBalance(st, guildId, u) + ValueOr0(d, u))
    requires forall g, u | g != guildId :: GetBalance(st1, g, u) == GetBalance(st, g, u)
    ensures var u := BankUndo(st1, true, guildId, actorId, allowNegative, later);
            u.Ok? && forall g, v :: GetBalance(u.value.0, g, v) == GetBalance(st, g, v)
  {
    var list := GuildActions(st1, guildId);
    var a := list[k];
    LastUndoableAt(list, actorId, k);
    assert FindLastAction(st1, guildId, actorId) == Some(a);
    var u := BankUndo(st1, true, guildId, actorId, allowNegative, later);
    assert u.Ok?;
    assert u.value.1.deltas == a.deltas;
  }

  lemma {:induction false} LastUndoableAt(actions: seq<BankAction>, actor: int, k: nat)
    requires k < |actions| && UndoableBy(actions[k], actor)
    requires forall j | k < j < |actions| :: !UndoableBy(actions[j], actor)
    ensures LastUndoableIndex(actions, actor) == Some(k)
  {
    if k < |actions| - 1 {
      var init := actions[..|actions| - 1];
      assert forall j | k < j < |init| :: init[j] == actions[j];
      LastUndoableAt(init, actor, k);
    }
  }

  /** With a non-negative limit the bounded list still ends with the newest entry. */
  lemma BoundedKeepsLast(list: seq<BankAction>, limit: int)
    requires list != [] && limit >= 0
    ensures var r := Bounded(list, limit); r != [] && r[|r| - 1] == list[|list| - 1]
  {
    var r := Bounded(list, limit);
    if limit >= 1 {
      assert r == list[|list| - |r|..];
    }
  }
}
