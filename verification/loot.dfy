/** The loot split of a raid: the scout's cut, then the cost of maps, then an
    even share for every player, the raid leader possibly weighted by a bonus.
    The percentages are floating point in the bot; here the scout's cut
    before its limits is an integer input and the leader's bonus percentage
    an exact rational, so the divisions and the rounding are exact. */
module Loot {
  import opened Base
  import opened Seqs

  type Positive = x: int | x > 0 witness 1

  /** The percentage `num / den`. */
  datatype Percent = Percent(num: int, den: Positive)

  datatype LootInput = LootInput(
    totalNet: int,
    leaderId: Option<int>,
    scoutId: Option<int>,
    players: seq<int>,
    leaderBonus: Percent,
    scoutRaw: int,
    scoutMin: int,
    scoutMax: int,
    mapsCost: int)

  datatype LootSplit = LootSplit(
    scoutPaid: int,
    postScout: int,
    postMaps: int,
    share: int,
    payouts: map<int, int>,
    leaderPaid: int)

  /** `max(lo, min(hi, x))`: the lower bound wins when the bounds cross. */
  function Clamp(lo: int, hi: int, x: int): (r: int)
    ensures lo <= hi ==> lo <= r <= hi
    ensures lo <= x <= hi ==> r == x
    ensures x < lo || hi < lo ==> r == lo
    ensures lo <= hi < x ==> r == hi
  {
    Max(lo, Min(hi, x))
  }

  /** Python's `round` on the exact value `a / b`: to the nearest integer,
      halves to the even neighbour. */
  function RoundHalfEven(a: int, b: int): (r: int)
    requires b > 0
    ensures -b <= 2 * (a - r * b) <= b
    ensures 2 * (a - r * b) == b || 2 * (a - r * b) == -b ==> r % 2 == 0
  {
    var q := a / b;
    var rem := a % b;
    DivisionFacts(a, b);
    var r := if 2 * rem < b then q else if 2 * rem > b || q % 2 != 0 then q + 1 else q;
    RoundChoice(a, b, q, rem, r);
    r
  }

  lemma DivisionFacts(a: int, b: int)
    requires b > 0
    ensures a - (a / b) * b == a % b
    ensures a - (a / b + 1) * b == a % b - b
    ensures 0 <= a % b < b
  {
    assert (a / b + 1) * b == (a / b) * b + b;
  }

  /** Rounding the quotient `q` with remainder `rem` up exactly when the
      remainder is past half, or at half with `q` odd. */
  lemma RoundChoice(a: int, b: int, q: int, rem: int, r: int)
    requires b > 0 && 0 <= rem < b
    requires a - q * b == rem && a - (q + 1) * b == rem - b
    requires r == if 2 * rem < b then q else if 2 * rem > b || q % 2 != 0 then q + 1 else q
    ensures -b <= 2 * (a - r * b) <= b
    ensures 2 * (a - r * b) == b || 2 * (a - r * b) == -b ==> r % 2 == 0
  {
    if r == q {
      assert a - r * b == rem;
    } else {
      assert a - r * b == rem - b;
    }
  }

  /** The players who share the loot: everyone but the scout. */
  function BasePlayers(players: seq<int>, scoutId: Option<int>): (b: seq<int>)
    ensures forall u :: u in b <==> u in players && (scoutId.None? || u != scoutId.value)
    ensures |b| <= |players|
  {
    if players == [] then []
    else
      assert players == [players[0]] + players[1..];
      (if scoutId.None? || players[0] != scoutId.value then [players[0]] else []) + BasePlayers(players[1..], scoutId)
  }

  /** The payout table `{uid: v for uid in base}`. */
  function EveryoneGets(base: seq<int>, v: int): (m: map<int, int>)
    ensures forall u :: u in m <==> u in base
    ensures forall u | u in m :: m[u] == v
  {
    map u | u in base :: v
  }

  /** `_compute_loot_split`. */
  function ComputeLootSplit(inp: LootInput): (r: LootSplit)
    ensures r.scoutPaid == (if Truthy(inp.scoutId) then Clamp(inp.scoutMin, inp.scoutMax, inp.scoutRaw) else 0)
    ensures 0 <= r.postScout && 0 <= r.postMaps
    ensures inp.mapsCost >= 0 ==> r.postMaps <= r.postScout
    ensures r.postScout == Max(0, inp.totalNet - r.scoutPaid)
    ensures r.postMaps == Max(0, r.postScout - inp.mapsCost)
    ensures forall u :: u in r.payouts <==> u in BasePlayers(inp.players, inp.scoutId)
  {
    var scoutPaid := if Truthy(inp.scoutId) then Clamp(inp.scoutMin, inp.scoutMax, inp.scoutRaw) else 0;
    var base := BasePlayers(inp.players, inp.scoutId);
    var postScout := Max(0, inp.totalNet - scoutPaid);
    var postMaps := Max(0, postScout - inp.mapsCost);
    if base == [] then
      assert forall u :: u !in base;
      LootSplit(scoutPaid, postScout, postMaps, 0, map[], 0)
    else
      var bonus := Max(0, inp.leaderBonus.num);
      var d := 100 * inp.leaderBonus.den;
      var leaderIn := Truthy(inp.leaderId) && inp.leaderId.value in base;
      var n := |base|;
      var share := if leaderIn then BonusShare(postMaps, n, d, bonus) else postMaps / n;
      var flat := EveryoneGets(base, share);
      if leaderIn then
        var paid := RoundHalfEven(share * (d + bonus), d);
        var payouts := flat[inp.leaderId.value := paid];
        assert forall u :: u in payouts <==> u in flat || u == inp.leaderId.value;
        LootSplit(scoutPaid, postScout, postMaps, share, payouts, paid)
      else LootSplit(scoutPaid, postScout, postMaps, share, flat, 0)
  }

  /** Whether the leader is paid with the bonus: set, truthy, and among the
      sharing players. */
  predicate LeaderShares(inp: LootInput) {
    Truthy(inp.leaderId) && inp.leaderId.value in BasePlayers(inp.players, inp.scoutId)
  }

  /** The maps cost is not checked for sign: a negative cost (a map priced
      below zero) adds to the pool instead of taking from it. */
  lemma NegativeMapsCostAdds(inp: LootInput)
    requires inp.mapsCost < 0
    ensures ComputeLootSplit(inp).postMaps == ComputeLootSplit(inp).postScout - inp.mapsCost
    ensures ComputeLootSplit(inp).postMaps > ComputeLootSplit(inp).postScout
  {
  }

  /** The scout is never paid out of the shared part. */
  lemma ScoutNotPaidOut(inp: LootInput)
    requires inp.scoutId.Some?
    ensures inp.scoutId.value !in ComputeLootSplit(inp).payouts
  {
  }

  /** Without sharing players there is no share and nobody is paid. */
  lemma NoPlayersNoPayout(inp: LootInput)
    requires BasePlayers(inp.players, inp.scoutId) == []
    ensures ComputeLootSplit(inp).share == 0 && ComputeLootSplit(inp).payouts == map[]
    ensures ComputeLootSplit(inp).leaderPaid == 0
  {
  }

  /** The sum of the payouts, each player counted once. */
  function PaidOut(inp: LootInput): int {
    SumOver(Dedup(BasePlayers(inp.players, inp.scoutId)), ComputeLootSplit(inp).payouts)
  }

  lemma {:induction false} SumOverConstant(keys: seq<int>, m: map<int, int>, c: int)
    requires forall u | u in keys :: u in m && m[u] == c
    ensures SumOver(keys, m) == |keys| * c
  {
    if keys != [] {
      var tail := keys[1..];
      assert forall u | u in tail :: u in keys;
      SumOverConstant(tail, m, c);
      TimesSucc(|tail|, c);
    }
  }

  lemma {:induction false} SumOverConstantExcept(keys: seq<int>, m: map<int, int>, c: int, x: int)
    requires Distinct(keys) && x in keys
    requires forall u | u in keys :: u in m
    requires forall u | u in keys && u != x :: m[u] == c
    ensures SumOver(keys, m) == (|keys| - 1) * c + m[x]
  {
    var tail := keys[1..];
    assert forall u | u in tail :: u in keys;
    if keys[0] == x {
      assert forall u | u in tail :: u != x by {
        forall u | u in tail ensures u != x {
          var j :| 0 <= j < |tail| && tail[j] == u;
          assert keys[j + 1] == u;
        }
      }
      SumOverConstant(tail, m, c);
    } else {
      DistinctTail(keys);
      SumOverConstantExcept(tail, m, c, x);
      TimesSucc(|tail| - 1, c);
    }
  }

  lemma TimesSucc(n: int, c: int)
    ensures (n + 1) * c == c + n * c
  {
  }

  /** Without the leader bonus everyone gets the same share, and the shares
      together never exceed what is left after scout and maps. */
  lemma EvenSplit(inp: LootInput)
    requires !LeaderShares(inp)
    ensures var r := ComputeLootSplit(inp);
      forall u | u in r.payouts :: r.payouts[u] == r.share
    ensures var r := ComputeLootSplit(inp);
      |BasePlayers(inp.players, inp.scoutId)| * r.share <= r.postMaps
    ensures PaidOut(inp) <= ComputeLootSplit(inp).postMaps
    ensures ComputeLootSplit(inp).leaderPaid == 0
    ensures var r := ComputeLootSplit(inp); var n := |BasePlayers(inp.players, inp.scoutId)|;
      n > 0 ==> r.share == r.postMaps / n && IsFloor(r.postMaps, n, r.share)
  {
    EvenShape(inp);
    EvenFacts(ComputeLootSplit(inp), BasePlayers(inp.players, inp.scoutId));
  }

  /** What an even split of `r.postMaps` among `base` pays. */
  lemma EvenFacts(r: LootSplit, base: seq<int>)
    requires r.postMaps >= 0 && r.leaderPaid == 0
    requires base == [] ==> r.share == 0 && r.payouts == map[]
    requires base != [] ==> r.share == r.postMaps / |base| && r.payouts == EveryoneGets(base, r.share)
    ensures forall u | u in r.payouts :: r.payouts[u] == r.share
    ensures |base| * r.share <= r.postMaps
    ensures SumOver(Dedup(base), r.payouts) <= r.postMaps
    ensures |base| > 0 ==> r.share == r.postMaps / |base| && IsFloor(r.postMaps, |base|, r.share)
  {
    if base == [] {
      assert Dedup(base) == [];
    } else {
      var keys := Dedup(base);
      EvenShareBound(r.postMaps, |base|, |keys|);
      FloorAbove(r.postMaps, |base|, r.share);
      SumOverConstant(keys, r.payouts, r.share);
    }
  }

  /** Without the leader among the base players, the share is the floor
      quotient and everyone gets it. */
  lemma EvenShape(inp: LootInput)
    requires !LeaderShares(inp)
    ensures var r := ComputeLootSplit(inp); var base := BasePlayers(inp.players, inp.scoutId);
      && r.leaderPaid == 0
      && (base == [] ==> r.share == 0 && r.payouts == map[])
      && (base != [] ==> r.share == r.postMaps / |base| && r.payouts == EveryoneGets(base, r.share))
  {
  }

  lemma EvenShareBound(pm: int, n: int, k: int)
    requires pm >= 0 && 0 <= k <= n && n >= 1
    ensures 0 <= pm / n
    ensures n * (pm / n) <= pm
    ensures k * (pm / n) <= pm
  {
    var s := pm / n;
    assert n * s + pm % n == pm;
    MulMonotone(k, n, s);
  }

  /** `q` is the floor quotient of `a` by `b`: `b·q` is the largest multiple
      of `b` not above `a`. */
  predicate IsFloor(a: int, b: int, q: int) {
    b > 0 && b * q <= a < b * (q + 1)
  }

  /** The floor quotient is the largest multiple not above the dividend. */
  lemma FloorAbove(a: int, b: int, q: int)
    requires b > 0 && q == a / b
    ensures a < b * (q + 1)
  {
    assert b * q + a % b == a;
    assert b * (q + 1) == b * q + b;
  }

  lemma MulMonotone(k: int, n: int, s: int)
    requires k <= n && s >= 0
    ensures k * s <= n * s
  {
    assert n * s - k * s == (n - k) * s;
  }

  lemma SpreadProduct(m: int, s: int, t: int, d: int)
    ensures (m * s + t) * d == m * (s * d) + t * d
    ensures s * (m * d + t) == m * (d * s) + s * t
  {
    assert (m * s) * d == m * (s * d);
  }

  lemma MulCancel(x: int, y: int, d: int)
    requires d > 0 && x * d < y * d
    ensures x < y
  {
  }

  /** The share when the leader takes a bonus: the pool over `n - 1` plain
      heads and one head weighted `(d + bonus) / d`, rounded down. */
  function BonusShare(pm: int, n: int, d: int, bonus: int): int
    requires n >= 1 && d >= 1 && bonus >= 0
  {
    assert n * d >= 1 by { MulMonotone(1, n, d); }
    pm * d / (n * d + bonus)
  }

  lemma LeaderShareBound(pm: int, n: int, d: int, bonus: int)
    requires pm >= 0 && n >= 1 && d >= 1 && bonus >= 0
    ensures 0 <= BonusShare(pm, n, d, bonus)
    ensures BonusShare(pm, n, d, bonus) * (n * d + bonus) <= pm * d
  {
  }

  /** The bonus share is the floor of the weighted quotient. */
  lemma BonusShareFloor(pm: int, n: int, d: int, bonus: int, s: int)
    requires pm >= 0 && n >= 1 && d >= 1 && bonus >= 0
    requires s == BonusShare(pm, n, d, bonus)
    ensures 0 <= s
    ensures s * (n * d + bonus) <= pm * d < (s + 1) * (n * d + bonus)
  {
    LeaderShareBound(pm, n, d, bonus);
    MulMonotone(1, n, d);
    FloorAbove(pm * d, n * d + bonus, s);
  }

  /** The leader bonus arithmetic: with share `s = floor(pm / ((n-1) + (d+b)/d))`
      and the leader paid `round(s * (d+b) / d)`, the leader gets at least the
      share and the `n - 1` other shares plus the leader's never exceed `pm`. */
  lemma LeaderArithmetic(pm: int, n: int, k: int, d: int, bonus: int, s: int, paid: int)
    requires pm >= 0 && 1 <= k <= n && d >= 1 && bonus >= 0
    requires 0 <= s && s * (n * d + bonus) <= pm * d
    requires -d <= 2 * (s * (d + bonus) - paid * d) <= d
    ensures paid >= s
    ensures (k - 1) * s + paid <= pm
  {
    var a, b, p := s * d, s * bonus, paid * d;
    assert s * (d + bonus) == a + b;
    assert b >= 0;
    assert (s - 1) * d == a - d;
    MulCancel(s - 1, paid, d);
    var x := (n - 1) * s + paid;
    SpreadProduct(n - 1, s, paid, d);
    assert (n - 1) * a == n * a - a;
    SpreadProduct(n, d, bonus, s);
    assert (pm + 1) * d == pm * d + d;
    MulCancel(x, pm + 1, d);
    MulMonotone(k - 1, n - 1, s);
  }

  /** With the leader among the sharing players, the leader's pay is at least
      the share, every other player gets the share, and the payouts together
      never exceed what is left after scout and maps. */
  lemma LeaderSplit(inp: LootInput)
    requires LeaderShares(inp)
    ensures var r := ComputeLootSplit(inp);
      && r.leaderPaid >= r.share
      && r.payouts[inp.leaderId.value] == r.leaderPaid
      && forall u | u in r.payouts && u != inp.leaderId.value :: r.payouts[u] == r.share
    ensures PaidOut(inp) <= ComputeLootSplit(inp).postMaps
    ensures var r := ComputeLootSplit(inp);
      var n := |BasePlayers(inp.players, inp.scoutId)|;
      var bonus, d := Max(0, inp.leaderBonus.num), 100 * inp.leaderBonus.den;
      && 0 <= r.share
      && r.share * (n * d + bonus) <= r.postMaps * d < (r.share + 1) * (n * d + bonus)
      && r.leaderPaid == RoundHalfEven(r.share * (d + bonus), d)
  {
    var r := ComputeLootSplit(inp);
    var base := BasePlayers(inp.players, inp.scoutId);
    var bonus := Max(0, inp.leaderBonus.num);
    var d := 100 * inp.leaderBonus.den;
    LeaderBranch(inp);
    BonusShareFloor(r.postMaps, |base|, d, bonus, r.share);
    LeaderOutcome(base, r.payouts, inp.leaderId.value, r.postMaps, d, bonus, r.share, r.leaderPaid);
  }

  /** The leader-bonus payouts over the sharing players `base`. */
  lemma LeaderOutcome(base: seq<int>, payouts: map<int, int>, leader: int,
                      pm: int, d: int, bonus: int, share: int, paid: int)
    requires leader in base && pm >= 0 && d >= 1 && bonus >= 0
    requires share == BonusShare(pm, |base|, d, bonus)
    requires paid == RoundHalfEven(share * (d + bonus), d)
    requires payouts == EveryoneGets(base, share)[leader := paid]
    ensures paid >= share && payouts[leader] == paid
    ensures forall u | u in payouts && u != leader :: payouts[u] == share
    ensures SumOver(Dedup(base), payouts) <= pm
  {
    LeaderPayoutTotal(Dedup(base), payouts, leader, pm, |base|, d, bonus, share, paid);
  }

  /** The leader-bonus branch of the split: the share from the bonus-weighted
      head count, the leader's rounded pay, everyone else on the share. */
  lemma LeaderBranch(inp: LootInput)
    requires LeaderShares(inp)
    ensures var r := ComputeLootSplit(inp);
      var base := BasePlayers(inp.players, inp.scoutId);
      var bonus, d := Max(0, inp.leaderBonus.num), 100 * inp.leaderBonus.den;
      && r.share == BonusShare(r.postMaps, |base|, d, bonus)
      && r.leaderPaid == RoundHalfEven(r.share * (d + bonus), d)
      && r.payouts == EveryoneGets(base, r.share)[inp.leaderId.value := r.leaderPaid]
  {
  }

  /** The leader-bonus payouts, for any distinct list of the sharing players,
      add up to no more than the pool. */
  lemma LeaderPayoutTotal(keys: seq<int>, payouts: map<int, int>, leader: int,
                          pm: int, n: int, d: int, bonus: int, share: int, paid: int)
    requires Distinct(keys) && leader in keys && |keys| <= n
    requires forall u | u in keys :: u in payouts
    requires forall u | u in keys && u != leader :: payouts[u] == share
    requires leader in payouts && payouts[leader] == paid
    requires pm >= 0 && d >= 1 && bonus >= 0
    requires n >= 1 && share == BonusShare(pm, n, d, bonus)
    requires paid == RoundHalfEven(share * (d + bonus), d)
    ensures paid >= share
    ensures SumOver(keys, payouts) <= pm
  {
    LeaderShareBound(pm, n, d, bonus);
    SumOverConstantExcept(keys, payouts, share, leader);
    LeaderArithmetic(pm, n, |keys|, d, bonus, share, paid);
  }
}
