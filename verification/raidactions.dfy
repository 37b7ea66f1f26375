/** What the raid buttons do to a raid, each locked section taken as one
    atomic step: choosing a role (with the optional item-power prompt), the
    absent toggle, leaving, and the DM-notification toggle. The raid and its
    template are the results of the store lookups, None when missing; the
    member's platform roles are a set of role ids. */
module RaidActions {
  import opened Base
  import opened Chars
  import opened Entities
  import opened Mentions
  import opened PyInt
  import opened Roster

  const RaidLeaderKey: string := "raid_leader"
  const MinIp: int := 0
  const MaxIp: int := 2500

  datatype JoinError =
    | RaidNotFound
    | RegistrationClosed
    | TemplateNotFound
    | RaidAccessDenied
    | InvalidRole
    | LeaderReserved
    | RoleAccessDenied
    | LeaderLocked
    | InvalidIp
    | IpOutOfRange

  /** Sign-ups close once the mass-up ping is sent, the start time is
      reached, or the raid is cleaned up. */
  predicate SignupsClosed(raid: RaidEvent, now: int) {
    raid.pingDone || now >= raid.startAt || raid.cleanupDone
  }

  /** The user's current sign-up is on the raid-leader role. */
  predicate IsLeader(signups: seq<Signup>, userId: int) {
    GetSignup(signups, userId).Some? && GetSignup(signups, userId).value.roleKey == RaidLeaderKey
  }

  /** The users of the raid are distinct and nobody is both signed up and
      declared absent. */
  predicate WellFormed(raid: RaidEvent) {
    && UniqueUsers(raid.signups)
    && forall j | 0 <= j < |raid.signups| :: raid.signups[j].userId !in raid.absent
  }

  /* ---------- choosing a role ---------- */

  /** The checks made when a role is chosen, then the locked step: the
      raid-leader lock, and the user is no longer absent. */
  function SelectRole(
    raid: Option<RaidEvent>, tpl: Option<CompTemplate>, memberRoles: set<int>,
    userId: int, roleKey: string, now: int): (r: Outcome<RaidEvent, JoinError>)
    ensures r == Err(RaidNotFound) <==> raid.None?
    ensures r == Err(RegistrationClosed) <==> raid.Some? && SignupsClosed(raid.value, now)
    ensures r == Err(TemplateNotFound) <==> raid.Some? && !SignupsClosed(raid.value, now) && tpl.None?
    ensures r == Err(RaidAccessDenied) <==>
      && raid.Some? && !SignupsClosed(raid.value, now) && tpl.Some?
      && !HasAnyRole(memberRoles, tpl.value.raidRequiredRoleIds)
    ensures r == Err(InvalidRole) <==>
      && raid.Some? && !SignupsClosed(raid.value, now) && tpl.Some?
      && HasAnyRole(memberRoles, tpl.value.raidRequiredRoleIds)
      && RoleDef(tpl.value.roles, roleKey).None?
    ensures r == Err(LeaderReserved) <==>
      && raid.Some? && !SignupsClosed(raid.value, now) && tpl.Some?
      && HasAnyRole(memberRoles, tpl.value.raidRequiredRoleIds)
      && RoleDef(tpl.value.roles, roleKey).Some? && roleKey == RaidLeaderKey
    ensures r == Err(RoleAccessDenied) <==>
      && raid.Some? && !SignupsClosed(raid.value, now) && tpl.Some?
      && HasAnyRole(memberRoles, tpl.value.raidRequiredRoleIds)
      && RoleDef(tpl.value.roles, roleKey).Some? && roleKey != RaidLeaderKey
      && !HasAnyRole(memberRoles, RoleDef(tpl.value.roles, roleKey).value.requiredRoleIds)
    ensures r == Err(LeaderLocked) <==>
      && raid.Some? && !SignupsClosed(raid.value, now) && tpl.Some?
      && HasAnyRole(memberRoles, tpl.value.raidRequiredRoleIds)
      && RoleDef(tpl.value.roles, roleKey).Some? && roleKey != RaidLeaderKey
      && HasAnyRole(memberRoles, RoleDef(tpl.value.roles, roleKey).value.requiredRoleIds)
      && IsLeader(raid.value.signups, userId)
    ensures r.Ok? <==>
      && raid.Some? && tpl.Some? && !SignupsClosed(raid.value, now)
      && RoleDef(tpl.value.roles, roleKey).Some? && roleKey != RaidLeaderKey
      && HasAnyRole(memberRoles, tpl.value.raidRequiredRoleIds)
      && HasAnyRole(memberRoles, RoleDef(tpl.value.roles, roleKey).value.requiredRoleIds)
      && !IsLeader(raid.value.signups, userId)
    ensures r.Ok? ==> r.value == raid.value.(absent := raid.value.absent - {userId})
  {
    if raid.None? then Err(RaidNotFound)
    else if SignupsClosed(raid.value, now) then Err(RegistrationClosed)
    else if tpl.None? then Err(TemplateNotFound)
    else if |tpl.value.raidRequiredRoleIds| > 0 && !HasAnyRole(memberRoles, tpl.value.raidRequiredRoleIds) then
      Err(RaidAccessDenied)
    else match RoleDef(tpl.value.roles, roleKey)
      case None => Err(InvalidRole)
      case Some(def) =>
        if roleKey == RaidLeaderKey then Err(LeaderReserved)
        else if |def.requiredRoleIds| > 0 && !HasAnyRole(memberRoles, def.requiredRoleIds) then
          Err(RoleAccessDenied)
        else if IsLeader(raid.value.signups, userId) then Err(LeaderLocked)
        else Ok(raid.value.(absent := raid.value.absent - {userId}))
  }

  /** The item-power prompt: an integer between 0 and 2500 inclusive. */
  function ParseIp(text: string): (r: Outcome<int, JoinError>)
    ensures r == Err(InvalidIp) <==> ParseInt(text).None?
    ensures r == Err(IpOutOfRange) <==> ParseInt(text).Some? && !(MinIp <= ParseInt(text).value <= MaxIp)
    ensures r.Ok? <==> ParseInt(text).Some? && MinIp <= ParseInt(text).value <= MaxIp
    ensures r.Ok? ==> r.value == ParseInt(text).value
  {
    match ParseInt(text)
    case None => Err(InvalidIp)
    case Some(ip) => if ip < MinIp || ip > MaxIp then Err(IpOutOfRange) else Ok(ip)
  }

  /** Every power in range, written in decimal, is accepted as itself. */
  lemma ParseIpRoundTrip(ip: int)
    requires MinIp <= ip <= MaxIp
    ensures ParseIp(IntToString(ip)) == Ok(ip)
  {
    NatToStringLength(ip);
    ParseIntToString(ip);
  }

  datatype Joined = Joined(raid: RaidEvent, status: SignupStatus, lateAssign: bool)

  /** The locked section that records the sign-up: the checks again, then the
      user's entry is written with the current time, main if the role still
      had a free place, and promotions are recomputed. `lateAssign` asks for
      the temporary raid role when the preparation phase has already run. */
  function FinalizeJoin(
    raid: Option<RaidEvent>, tpl: Option<CompTemplate>,
    userId: int, roleKey: string, ip: Option<int>, now: int): (r: Outcome<Joined, JoinError>)
    ensures r == Err(RaidNotFound) <==> raid.None?
    ensures r == Err(TemplateNotFound) <==> raid.Some? && tpl.None?
    ensures r == Err(RegistrationClosed) <==> raid.Some? && tpl.Some? && SignupsClosed(raid.value, now)
    ensures r == Err(InvalidRole) <==>
      raid.Some? && tpl.Some? && !SignupsClosed(raid.value, now) && RoleDef(tpl.value.roles, roleKey).None?
    ensures r == Err(LeaderReserved) <==>
      && raid.Some? && tpl.Some? && !SignupsClosed(raid.value, now)
      && RoleDef(tpl.value.roles, roleKey).Some? && roleKey == RaidLeaderKey
    ensures r == Err(LeaderLocked) <==>
      && raid.Some? && tpl.Some? && !SignupsClosed(raid.value, now)
      && RoleDef(tpl.value.roles, roleKey).Some? && roleKey != RaidLeaderKey
      && IsLeader(raid.value.signups, userId)
    ensures r.Ok? <==>
      && raid.Some? && tpl.Some? && !SignupsClosed(raid.value, now)
      && RoleDef(tpl.value.roles, roleKey).Some? && roleKey != RaidLeaderKey
      && !IsLeader(raid.value.signups, userId)
    ensures r.Ok? ==>
      (r.value.status == Main <==>
        CountMain(raid.value.signups, roleKey) < RoleDef(tpl.value.roles, roleKey).value.slots)
    ensures r.Ok? ==> r.value.lateAssign == (raid.value.prepDone && !raid.value.pingDone)
  {
    if raid.None? then Err(RaidNotFound)
    else if tpl.None? then Err(TemplateNotFound)
    else if SignupsClosed(raid.value, now) then Err(RegistrationClosed)
    else match RoleDef(tpl.value.roles, roleKey)
      case None => Err(InvalidRole)
      case Some(def) =>
        if roleKey == RaidLeaderKey then Err(LeaderReserved)
        else if IsLeader(raid.value.signups, userId) then Err(LeaderLocked)
        else
          var rd := raid.value;
          var status := if CountMain(rd.signups, roleKey) < def.slots then Main else Wait;
          var placed := PutSignup(rd.signups, Signup(userId, roleKey, status, ip, now));
          var after := rd.(signups := Recompute(placed, rd.absent, tpl.value.roles));
          Ok(Joined(after, status, rd.prepDone && !rd.pingDone))
  }

  /** What a successful sign-up leaves behind: only the sign-ups change; the
      user holds the chosen role with the given power and the current time;
      every other user keeps their entry up to a promotion; and the promotions
      from the recorded sign-ups are settled: only eligible waiters, earliest
      first, within the slots, until no role has a free place while an
      eligible waiter remains. */
  lemma FinalizeJoinEffect(
    raid: Option<RaidEvent>, tpl: Option<CompTemplate>,
    userId: int, roleKey: string, ip: Option<int>, now: int)
    requires FinalizeJoin(raid, tpl, userId, roleKey, ip, now).Ok?
    ensures var j := FinalizeJoin(raid, tpl, userId, roleKey, ip, now).value;
      && j.raid == raid.value.(signups := j.raid.signups)
      && GetSignup(j.raid.signups, userId).Some?
      && GetSignup(j.raid.signups, userId).value.roleKey == roleKey
      && GetSignup(j.raid.signups, userId).value.ip == ip
      && GetSignup(j.raid.signups, userId).value.joinedAt == now
      && (j.status == Main ==> GetSignup(j.raid.signups, userId).value.status == Main)
      && Settled(PutSignup(raid.value.signups, Signup(userId, roleKey, j.status, ip, now)),
                 j.raid.signups, raid.value.absent, tpl.value.roles)
    ensures var j := FinalizeJoin(raid, tpl, userId, roleKey, ip, now).value;
      forall u | u != userId ::
        && GetSignup(j.raid.signups, u).Some? == GetSignup(raid.value.signups, u).Some?
        && (GetSignup(raid.value.signups, u).Some? ==>
          var x, y := GetSignup(raid.value.signups, u).value, GetSignup(j.raid.signups, u).value;
          y == x || (x.status == Wait && y == x.(status := Main)))
  {
    var rd := raid.value;
    var def := RoleDef(tpl.value.roles, roleKey).value;
    var status := if CountMain(rd.signups, roleKey) < def.slots then Main else Wait;
    var placed := PutSignup(rd.signups, Signup(userId, roleKey, status, ip, now));
    var final := Recompute(placed, rd.absent, tpl.value.roles);
    PromotedGet(placed, final, userId);
    forall u | u != userId
      ensures GetSignup(final, u).Some? == GetSignup(rd.signups, u).Some?
      ensures GetSignup(rd.signups, u).Some? ==>
        var x, y := GetSignup(rd.signups, u).value, GetSignup(final, u).value;
        y == x || (x.status == Wait && y == x.(status := Main))
    {
      PromotedGet(placed, final, u);
    }
  }

  /** Choosing a role, then, if the role asks for it, entering the item power,
      then recording the sign-up. `now` is the time of the choice and
      `submittedAt` the time the power is entered. The resulting raid keeps
      the effect of the first locked step (the user is no longer absent) even
      when a later step refuses. */
  datatype JoinReply = JoinReply(raid: Option<RaidEvent>, result: Outcome<Joined, JoinError>)

  function Join(
    raid: Option<RaidEvent>, tpl: Option<CompTemplate>, memberRoles: set<int>,
    userId: int, roleKey: string, ipText: string, now: int, submittedAt: int): (r: JoinReply)
    ensures r.result.Ok? ==> r.raid == Some(r.result.value.raid)
    ensures r.result.Ok? ==> raid.Some? && tpl.Some? && !SignupsClosed(raid.value, now)
    ensures r.result.Err? ==>
      r.raid == raid || (raid.Some? && r.raid == Some(raid.value.(absent := raid.value.absent - {userId})))
    ensures var s := SelectRole(raid, tpl, memberRoles, userId, roleKey, now);
      s.Err? ==> r.raid == raid && r.result == Err(s.error)
    ensures var s := SelectRole(raid, tpl, memberRoles, userId, roleKey, now);
      s.Ok? && RoleDef(tpl.value.roles, roleKey).value.ipRequired && ParseIp(ipText).Err? ==>
        r.raid == Some(s.value) && r.result == Err(ParseIp(ipText).error)
    ensures var s := SelectRole(raid, tpl, memberRoles, userId, roleKey, now);
      s.Ok? && (RoleDef(tpl.value.roles, roleKey).value.ipRequired ==> ParseIp(ipText).Ok?) ==>
        var at := if RoleDef(tpl.value.roles, roleKey).value.ipRequired then submittedAt else now;
        && (r.result.Ok? <==> !SignupsClosed(raid.value, at))
        && (!r.result.Ok? ==> r.raid == Some(s.value) && r.result == Err(RegistrationClosed))
        && (r.result.Ok? ==>
              && GetSignup(r.result.value.raid.signups, userId).Some?
              && GetSignup(r.result.value.raid.signups, userId).value.roleKey == roleKey
              && GetSignup(r.result.value.raid.signups, userId).value.joinedAt == at
              && GetSignup(r.result.value.raid.signups, userId).value.ip
                 == (if RoleDef(tpl.value.roles, roleKey).value.ipRequired then Some(ParseIp(ipText).value) else None))
  {
    match SelectRole(raid, tpl, memberRoles, userId, roleKey, now)
    case Err(e) => JoinReply(raid, Err(e))
    case Ok(selected) =>
      var def := RoleDef(tpl.value.roles, roleKey).value;
      if def.ipRequired then
        match ParseIp(ipText)
        case Err(e) => JoinReply(Some(selected), Err(e))
        case Ok(ip) =>
          RecordedEntry(Some(selected), tpl, userId, roleKey, Some(ip), submittedAt);
          Recorded(selected, FinalizeJoin(Some(selected), tpl, userId, roleKey, Some(ip), submittedAt))
      else
        RecordedEntry(Some(selected), tpl, userId, roleKey, None, now);
        Recorded(selected, FinalizeJoin(Some(selected), tpl, userId, roleKey, None, now))
  }

  /** The entry a successful recording leaves for the user. */
  lemma RecordedEntry(
    raid: Option<RaidEvent>, tpl: Option<CompTemplate>,
    userId: int, roleKey: string, ip: Option<int>, now: int)
    ensures var f := FinalizeJoin(raid, tpl, userId, roleKey, ip, now);
      f.Ok? ==>
        && GetSignup(f.value.raid.signups, userId).Some?
        && GetSignup(f.value.raid.signups, userId).value.roleKey == roleKey
        && GetSignup(f.value.raid.signups, userId).value.joinedAt == now
        && GetSignup(f.value.raid.signups, userId).value.ip == ip
  {
    if FinalizeJoin(raid, tpl, userId, roleKey, ip, now).Ok? {
      FinalizeJoinEffect(raid, tpl, userId, roleKey, ip, now);
    }
  }

  function Recorded(selected: RaidEvent, f: Outcome<Joined, JoinError>): (r: JoinReply)
    ensures r.result == f
    ensures r.raid == Some(if f.Ok? then f.value.raid else selected)
  {
    match f
    case Ok(j) => JoinReply(Some(j.raid), f)
    case Err(_) => JoinReply(Some(selected), f)
  }

  /** Recording the sign-up of a user who is not absent keeps the raid well
      formed. */
  lemma FinalizeJoinKeepsWellFormed(
    raid: RaidEvent, tpl: Option<CompTemplate>,
    userId: int, roleKey: string, ip: Option<int>, now: int)
    requires WellFormed(raid) && userId !in raid.absent
    requires FinalizeJoin(Some(raid), tpl, userId, roleKey, ip, now).Ok?
    ensures var j := FinalizeJoin(Some(raid), tpl, userId, roleKey, ip, now).value;
      WellFormed(j.raid) && userId !in j.raid.absent && GetSignup(j.raid.signups, userId).Some?
  {
    var j := FinalizeJoin(Some(raid), tpl, userId, roleKey, ip, now).value;
    var def := RoleDef(tpl.value.roles, roleKey).value;
    var status := if CountMain(raid.signups, roleKey) < def.slots then Main else Wait;
    var placed := PutSignup(raid.signups, Signup(userId, roleKey, status, ip, now));
    assert j.raid == raid.(signups := Recompute(placed, raid.absent, tpl.value.roles));
    PlacedKeepsWellFormed(raid, placed, j.raid.signups, userId);
  }

  /** Putting an entry for a user who is not absent, then promoting, keeps
      the raid well formed and the user signed up. */
  lemma PlacedKeepsWellFormed(raid: RaidEvent, placed: seq<Signup>, after: seq<Signup>, userId: int)
    requires WellFormed(raid) && userId !in raid.absent
    requires GetSignup(placed, userId).Some?
    requires UniqueUsers(placed)
    requires forall x | x in placed :: x.userId == userId || x in raid.signups
    requires Promoted(placed, after)
    ensures WellFormed(raid.(signups := after)) && GetSignup(after, userId).Some?
  {
    PromotedKeepsUsers(placed, after);
    forall k | 0 <= k < |after| ensures after[k].userId !in raid.absent {
      assert placed[k] in placed;
    }
  }

  /** A join leaves the raid well formed, and a successful one leaves the
      user signed up and not absent. */
  lemma JoinKeepsWellFormed(
    raid: Option<RaidEvent>, tpl: Option<CompTemplate>, memberRoles: set<int>,
    userId: int, roleKey: string, ipText: string, now: int, submittedAt: int)
    requires raid.Some? && WellFormed(raid.value)
    ensures var r := Join(raid, tpl, memberRoles, userId, roleKey, ipText, now, submittedAt);
      r.raid.Some? && WellFormed(r.raid.value)
    ensures var r := Join(raid, tpl, memberRoles, userId, roleKey, ipText, now, submittedAt);
      r.result.Ok? ==> userId !in r.raid.value.absent && GetSignup(r.raid.value.signups, userId).Some?
  {
    var r := Join(raid, tpl, memberRoles, userId, roleKey, ipText, now, submittedAt);
    var sel := SelectRole(raid, tpl, memberRoles, userId, roleKey, now);
    if sel.Ok? {
      var selected := sel.value;
      assert WellFormed(selected);
      var def := RoleDef(tpl.value.roles, roleKey).value;
      if def.ipRequired {
        if ParseIp(ipText).Ok? {
          var ip := ParseIp(ipText).value;
          if FinalizeJoin(Some(selected), tpl, userId, roleKey, Some(ip), submittedAt).Ok? {
            FinalizeJoinKeepsWellFormed(selected, tpl, userId, roleKey, Some(ip), submittedAt);
          }
        }
      } else if FinalizeJoin(Some(selected), tpl, userId, roleKey, None, now).Ok? {
        FinalizeJoinKeepsWellFormed(selected, tpl, userId, roleKey, None, now);
      }
    }
  }

  /* ---------- absent, leave, notifications ---------- */

  datatype ActionError = NoRaid | NoTemplate | AfterMassUp | LeaderRefused

  /** `_on_absent`'s locked section. The flag is whether the user is absent
      afterwards. */
  function ToggleAbsent(raid: Option<RaidEvent>, tpl: Option<CompTemplate>, userId: int): (r: Outcome<(RaidEvent, bool), ActionError>)
    ensures r == Err(NoRaid) <==> raid.None?
    ensures r == Err(NoTemplate) <==> raid.Some? && tpl.None?
    ensures r == Err(AfterMassUp) <==> raid.Some? && tpl.Some? && (raid.value.pingDone || raid.value.cleanupDone)
    ensures r == Err(LeaderRefused) <==>
      raid.Some? && tpl.Some? && !raid.value.pingDone && !raid.value.cleanupDone && IsLeader(raid.value.signups, userId)
    ensures r.Ok? && userId in raid.value.absent ==>
      r.value == (raid.value.(absent := raid.value.absent - {userId}), false)
    ensures r.Ok? && userId !in raid.value.absent ==>
      && r.value.1
      && r.value.0.absent == raid.value.absent + {userId}
      && GetSignup(r.value.0.signups, userId).None?
      && r.value.0 == raid.value.(absent := r.value.0.absent, signups := r.value.0.signups)
      && Settled(RemoveSignup(raid.value.signups, userId), r.value.0.signups, r.value.0.absent, tpl.value.roles)
  {
    if raid.None? then Err(NoRaid)
    else if tpl.None? then Err(NoTemplate)
    else if raid.value.pingDone || raid.value.cleanupDone then Err(AfterMassUp)
    else if IsLeader(raid.value.signups, userId) then Err(LeaderRefused)
    else
      var rd := raid.value;
      if userId in rd.absent then Ok((rd.(absent := rd.absent - {userId}), false))
      else
        var absent := rd.absent + {userId};
        var removed := RemoveSignup(rd.signups, userId);
        var after := Recompute(removed, absent, tpl.value.roles);
        PromotedGet(removed, after, userId);
        Ok((rd.(absent := absent, signups := after), true))
  }

  /** `_on_leave`'s locked section. The flag is "changed": whether the user
      had a sign-up or was absent; only then are promotions recomputed. */
  function Leave(raid: Option<RaidEvent>, tpl: Option<CompTemplate>, userId: int): (r: Outcome<(RaidEvent, bool), ActionError>)
    ensures r == Err(NoRaid) <==> raid.None?
    ensures r == Err(NoTemplate) <==> raid.Some? && tpl.None?
    ensures r == Err(AfterMassUp) <==> raid.Some? && tpl.Some? && (raid.value.pingDone || raid.value.cleanupDone)
    ensures r == Err(LeaderRefused) <==>
      raid.Some? && tpl.Some? && !raid.value.pingDone && !raid.value.cleanupDone && IsLeader(raid.value.signups, userId)
    ensures r.Ok? ==> (r.value.1 <==> GetSignup(raid.value.signups, userId).Some? || userId in raid.value.absent)
    ensures r.Ok? ==> !r.value.1 ==> r.value.0 == raid.value
    ensures r.Ok? ==> userId !in r.value.0.absent && GetSignup(r.value.0.signups, userId).None?
    ensures r.Ok? ==> r.value.0.absent == raid.value.absent - {userId}
    ensures r.Ok? && r.value.1 ==>
      && r.value.0 == raid.value.(absent := r.value.0.absent, signups := r.value.0.signups)
      && Settled(RemoveSignup(raid.value.signups, userId), r.value.0.signups, r.value.0.absent, tpl.value.roles)
  {
    if raid.None? then Err(NoRaid)
    else if tpl.None? then Err(NoTemplate)
    else if raid.value.pingDone || raid.value.cleanupDone then Err(AfterMassUp)
    else if IsLeader(raid.value.signups, userId) then Err(LeaderRefused)
    else
      var rd := raid.value;
      var hadSignup := GetSignup(rd.signups, userId).Some?;
      var wasAbsent := userId in rd.absent;
      if !hadSignup && !wasAbsent then Ok((rd, false))
      else
        var absent := rd.absent - {userId};
        var removed := RemoveSignup(rd.signups, userId);
        var after := Recompute(removed, absent, tpl.value.roles);
        PromotedGet(removed, after, userId);
        Ok((rd.(absent := absent, signups := after), true))
  }

  /** After the absent toggle or a leave, every other user keeps their
      sign-up, up to a waiter being promoted. */
  lemma ToggleAbsentKeepsOthers(raid: Option<RaidEvent>, tpl: Option<CompTemplate>, userId: int, u: int)
    requires u != userId && ToggleAbsent(raid, tpl, userId).Ok?
    ensures var after := ToggleAbsent(raid, tpl, userId).value.0.signups;
      && GetSignup(after, u).Some? == GetSignup(raid.value.signups, u).Some?
      && (GetSignup(raid.value.signups, u).Some? ==>
        var x, y := GetSignup(raid.value.signups, u).value, GetSignup(after, u).value;
        y == x || (x.status == Wait && y == x.(status := Main)))
  {
    var after := ToggleAbsent(raid, tpl, userId).value.0.signups;
    if userId !in raid.value.absent {
      var removed := RemoveSignup(raid.value.signups, userId);
      RemoveKeepsOthers(raid.value.signups, userId, u);
      PromotedGet(removed, after, u);
    }
  }

  lemma LeaveKeepsOthers(raid: Option<RaidEvent>, tpl: Option<CompTemplate>, userId: int, u: int)
    requires u != userId && Leave(raid, tpl, userId).Ok?
    ensures var after := Leave(raid, tpl, userId).value.0.signups;
      && GetSignup(after, u).Some? == GetSignup(raid.value.signups, u).Some?
      && (GetSignup(raid.value.signups, u).Some? ==>
        var x, y := GetSignup(raid.value.signups, u).value, GetSignup(after, u).value;
        y == x || (x.status == Wait && y == x.(status := Main)))
  {
    var after := Leave(raid, tpl, userId).value.0.signups;
    if Leave(raid, tpl, userId).value.1 {
      var removed := RemoveSignup(raid.value.signups, userId);
      RemoveKeepsOthers(raid.value.signups, userId, u);
      PromotedGet(removed, after, u);
    }
  }

  /** Absent toggling and leaving keep the raid well formed. */
  lemma ToggleAbsentKeepsWellFormed(raid: Option<RaidEvent>, tpl: Option<CompTemplate>, userId: int)
    requires raid.Some? && WellFormed(raid.value)
    ensures var r := ToggleAbsent(raid, tpl, userId);
      r.Ok? ==> WellFormed(r.value.0)
  {
    var r := ToggleAbsent(raid, tpl, userId);
    if r.Ok? && userId !in raid.value.absent {
      RemovedKeepsWellFormed(raid.value.signups, userId, r.value.0.absent, r.value.0.signups);
    }
  }

  /** Deleting a user's sign-up and promoting keeps one sign-up per user,
      and nobody left signed up is absent. */
  lemma RemovedKeepsWellFormed(signups: seq<Signup>, userId: int, absent: set<int>, after: seq<Signup>)
    requires UniqueUsers(signups)
    requires forall j | 0 <= j < |signups| && signups[j].userId != userId :: signups[j].userId !in absent
    requires Promoted(RemoveSignup(signups, userId), after)
    ensures UniqueUsers(after) && forall k | 0 <= k < |after| :: after[k].userId !in absent
  {
    var removed := RemoveSignup(signups, userId);
    RemoveKeepsUnique(signups, userId);
    PromotedKeepsUsers(removed, after);
    forall k | 0 <= k < |after| ensures after[k].userId !in absent {
      assert removed[k] in removed;
      var j :| 0 <= j < |signups| && signups[j] == removed[k];
    }
  }

  lemma LeaveKeepsWellFormed(raid: Option<RaidEvent>, tpl: Option<CompTemplate>, userId: int)
    requires raid.Some? && WellFormed(raid.value)
    ensures var r := Leave(raid, tpl, userId);
      r.Ok? ==> WellFormed(r.value.0)
  {
    var r := Leave(raid, tpl, userId);
    if r.Ok? && r.value.1 {
      RemovedKeepsWellFormed(raid.value.signups, userId, r.value.0.absent, r.value.0.signups);
    }
  }

  /** Toggling absent twice from a present, signed-up state leaves the user
      neither absent nor signed up. */
  lemma AbsentTwice(raid: Option<RaidEvent>, tpl: Option<CompTemplate>, userId: int)
    requires raid.Some? && userId !in raid.value.absent
    requires ToggleAbsent(raid, tpl, userId).Ok?
    ensures var once := ToggleAbsent(raid, tpl, userId).value.0;
      var twice := ToggleAbsent(Some(once), tpl, userId);
      && twice.Ok? && !twice.value.1
      && userId !in twice.value.0.absent
      && GetSignup(twice.value.0.signups, userId).None?
  {
    var once := ToggleAbsent(raid, tpl, userId).value.0;
    assert !IsLeader(once.signups, userId);
  }

  /** `_on_notify`'s locked section. The flag is whether direct-message
      notifications are on afterwards. */
  function ToggleNotify(raid: Option<RaidEvent>, userId: int): (r: Outcome<(RaidEvent, bool), ActionError>)
    ensures r == Err(NoRaid) <==> raid.None?
    ensures r == Err(AfterMassUp) <==> raid.Some? && (raid.value.pingDone || raid.value.cleanupDone)
    ensures r.Ok? ==> (r.value.1 <==> userId !in raid.value.dmNotifyUsers)
    ensures r.Ok? ==> (userId in r.value.0.dmNotifyUsers <==> r.value.1)
    ensures r.Ok? ==> forall u | u != userId :: u in r.value.0.dmNotifyUsers <==> u in raid.value.dmNotifyUsers
    ensures r.Ok? ==> r.value.0 == raid.value.(dmNotifyUsers := r.value.0.dmNotifyUsers)
    ensures r.Ok? <==> raid.Some? && !raid.value.pingDone && !raid.value.cleanupDone
  {
    if raid.None? then Err(NoRaid)
    else if raid.value.pingDone || raid.value.cleanupDone then Err(AfterMassUp)
    else
      var rd := raid.value;
      if userId in rd.dmNotifyUsers then Ok((rd.(dmNotifyUsers := rd.dmNotifyUsers - {userId}), false))
      else Ok((rd.(dmNotifyUsers := rd.dmNotifyUsers + {userId}), true))
  }

  /** Toggling notifications twice gives the raid back. */
  lemma NotifyTwice(raid: RaidEvent, userId: int)
    requires !raid.pingDone && !raid.cleanupDone
    ensures var once := ToggleNotify(Some(raid), userId).value.0;
      ToggleNotify(Some(once), userId) == Ok((raid, userId in raid.dmNotifyUsers))
  {
    var once := ToggleNotify(Some(raid), userId).value.0;
    if userId in raid.dmNotifyUsers {
      assert once.dmNotifyUsers + {userId} == raid.dmNotifyUsers;
    } else {
      assert once.dmNotifyUsers - {userId} == raid.dmNotifyUsers;
    }
  }
}
