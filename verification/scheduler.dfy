/** The raid phase scheduler. Every tick looks at a raid and, in order, runs
    the preparation (temporary role hand-out), the mass-up ping, the voice
    attendance check and the cleanup, each at most once, recording it in the
    raid's flags. The platform side effects are events in the order they
    happen; their own failures do not stop the flag from being set. */
module Scheduler {
  import opened Base
  import opened Seqs
  import opened Entities

  /* ---------- status and buttons ---------- */

  datatype RaidPhase = OpenPhase | PingedPhase | ClosedPhase

  /** `raid_status`. */
  function RaidStatus(raid: RaidEvent): (p: RaidPhase)
    ensures p == ClosedPhase <==> raid.cleanupDone
    ensures p == PingedPhase <==> !raid.cleanupDone && raid.pingDone
    ensures p == OpenPhase <==> !raid.cleanupDone && !raid.pingDone
  {
    if raid.cleanupDone then ClosedPhase
    else if raid.pingDone then PingedPhase
    else OpenPhase
  }

  function PhaseRank(p: RaidPhase): nat {
    match p
    case OpenPhase => 0
    case PingedPhase => 1
    case ClosedPhase => 2
  }

  /** The role picker of the raid message is disabled once sign-ups close. */
  predicate JoinDisabled(raid: RaidEvent, now: int) {
    raid.pingDone || now >= raid.startAt || raid.cleanupDone
  }

  /** The absent, leave and notification buttons are disabled after the ping
      or the cleanup. */
  predicate ActionsDisabled(raid: RaidEvent) {
    raid.pingDone || raid.cleanupDone
  }

  /** Whenever the other buttons are disabled, the role picker is too; the
      picker alone also closes at the start time. */
  lemma DisabledButtons(raid: RaidEvent, now: int)
    ensures ActionsDisabled(raid) ==> JoinDisabled(raid, now)
    ensures JoinDisabled(raid, now) && !ActionsDisabled(raid) <==> !raid.pingDone && !raid.cleanupDone && now >= raid.startAt
  {
  }

  /* ---------- one tick ---------- */

  datatype TickEvent = AssignTempRoles | PingRaid | VoiceReport | CleanupRaid | RefreshMessage

  /** The four phase flags of a raid. */
  datatype Flags = Flags(prep: bool, ping: bool, voice: bool, cleanup: bool)

  function FlagsOf(raid: RaidEvent): Flags {
    Flags(raid.prepDone, raid.pingDone, raid.voiceCheckDone, raid.cleanupDone)
  }

  function WithFlags(raid: RaidEvent, f: Flags): RaidEvent {
    raid.(prepDone := f.prep, pingDone := f.ping, voiceCheckDone := f.voice, cleanupDone := f.cleanup)
  }

  /** The instants at which the phases fall due. */
  datatype Schedule = Schedule(prepAt: int, startAt: int, checkAt: int, cleanupAt: int)

  function ScheduleOf(raid: RaidEvent, voiceCheckAfterMinutes: int): Schedule {
    Schedule(
      raid.startAt - raid.prepMinutes * 60,
      raid.startAt,
      raid.startAt + voiceCheckAfterMinutes * 60,
      raid.startAt + raid.cleanupMinutes * 60)
  }

  datatype Step = Step(flags: Flags, events: seq<TickEvent>)

  /** Preparation: due once `prep_at` is reached; the role hand-out happens
      only while the ping has not been sent, but the message is refreshed
      whenever the step is due. */
  function PrepStep(f: Flags, sc: Schedule, now: int): (r: Step)
    ensures r.flags.(prep := f.prep) == f
    ensures AssignTempRoles in r.events <==> !f.prep && r.flags.prep
    ensures forall x | x in r.events :: x == AssignTempRoles || x == RefreshMessage
  {
    if !f.prep && now >= sc.prepAt then
      if !f.ping then Step(f.(prep := true), [AssignTempRoles, RefreshMessage])
      else Step(f, [RefreshMessage])
    else Step(f, [])
  }

  function PingStep(f: Flags, sc: Schedule, now: int): (r: Step)
    ensures r.flags.(ping := f.ping) == f
    ensures PingRaid in r.events <==> !f.ping && r.flags.ping
    ensures forall x | x in r.events :: x == PingRaid || x == RefreshMessage
  {
    if !f.ping && now >= sc.startAt then Step(f.(ping := true), [PingRaid, RefreshMessage])
    else Step(f, [])
  }

  function VoiceStep(f: Flags, sc: Schedule, now: int): (r: Step)
    ensures r.flags.(voice := f.voice) == f
    ensures VoiceReport in r.events <==> !f.voice && r.flags.voice
    ensures forall x | x in r.events :: x == VoiceReport
  {
    if !f.voice && now >= sc.checkAt then Step(f.(voice := true), [VoiceReport])
    else Step(f, [])
  }

  function CleanupStep(f: Flags, sc: Schedule, now: int): (r: Step)
    ensures r.flags.(cleanup := f.cleanup) == f
    ensures CleanupRaid in r.events <==> !f.cleanup && r.flags.cleanup
    ensures forall x | x in r.events :: x == CleanupRaid || x == RefreshMessage
  {
    if !f.cleanup && now >= sc.cleanupAt then Step(f.(cleanup := true), [CleanupRaid, RefreshMessage])
    else Step(f, [])
  }

  /** The four steps of a tick in order, each seeing the flags the previous
      one left. */
  function FlagTick(f: Flags, sc: Schedule, now: int): Step {
    if f.cleanup then Step(f, [])
    else
      var s1 := PrepStep(f, sc, now);
      var s2 := PingStep(s1.flags, sc, now);
      var s3 := VoiceStep(s2.flags, sc, now);
      var s4 := CleanupStep(s3.flags, sc, now);
      Step(s4.flags, s1.events + s2.events + s3.events + s4.events)
  }

  /** What the platform answers during one tick: whether the raid's text
      channel can be fetched by the preparation and by the voice report,
      whether the stored temporary role still exists in the guild, the id of
      a newly created role (None when creation fails), and the non-bot
      members of the voice channel (None when the raid has no voice
      channel). */
  datatype TickEnv = TickEnv(
    prepChannelReachable: bool,
    tempRoleExists: bool,
    createdRoleId: Option<int>,
    reportChannelReachable: bool,
    voiceMembers: Option<set<int>>)

  /** The raid record after `_assign_temp_role_bulk`: with the text channel
      set and reachable, `_ensure_temp_role` keeps a stored role that still
      exists and otherwise stores the id of a newly created one. */
  function PrepareTempRole(raid: RaidEvent, env: TickEnv): (r: RaidEvent)
    ensures r == raid.(tempRoleId := r.tempRoleId)
    ensures r.tempRoleId != raid.tempRoleId ==>
      && Truthy(raid.channelId) && env.prepChannelReachable
      && !(Truthy(raid.tempRoleId) && env.tempRoleExists)
      && r.tempRoleId == env.createdRoleId
    ensures (Truthy(raid.channelId) && env.prepChannelReachable && !(Truthy(raid.tempRoleId) && env.tempRoleExists)
      && env.createdRoleId.Some?) ==> r.tempRoleId == env.createdRoleId
  {
    if !Truthy(raid.channelId) || !env.prepChannelReachable then raid
    else if Truthy(raid.tempRoleId) && env.tempRoleExists then raid
    else match env.createdRoleId
      case None => raid
      case Some(id) => raid.(tempRoleId := Some(id))
  }

  /** One pass of `scheduler_loop` over one raid: the raid afterwards and
      the side effects run. Besides the flags, the preparation may store the
      temporary role and the voice report the present users. */
  function Tick(raid: RaidEvent, now: int, voiceCheckAfterMinutes: int, env: TickEnv): (r: (RaidEvent, seq<TickEvent>))
    ensures raid.cleanupDone ==> r == (raid, [])
    ensures r.0 == raid.(
      prepDone := r.0.prepDone, pingDone := r.0.pingDone,
      voiceCheckDone := r.0.voiceCheckDone, cleanupDone := r.0.cleanupDone,
      tempRoleId := r.0.tempRoleId, lastVoicePresentIds := r.0.lastVoicePresentIds)
    ensures r.0.tempRoleId != raid.tempRoleId ==> AssignTempRoles in r.1
    ensures r.0.lastVoicePresentIds != raid.lastVoicePresentIds ==> VoiceReport in r.1
  {
    var s := FlagTick(FlagsOf(raid), ScheduleOf(raid, voiceCheckAfterMinutes), now);
    (Record(raid, s, env), s.events)
  }

  /** The raid after the flag steps `s`: the new flags, then what the
      preparation and the voice report store when they run. */
  function Record(raid: RaidEvent, s: Step, env: TickEnv): (r: RaidEvent)
    ensures FlagsOf(r) == s.flags
    ensures r == raid.(
      prepDone := r.prepDone, pingDone := r.pingDone,
      voiceCheckDone := r.voiceCheckDone, cleanupDone := r.cleanupDone,
      tempRoleId := r.tempRoleId, lastVoicePresentIds := r.lastVoicePresentIds)
    ensures r.tempRoleId != raid.tempRoleId ==> AssignTempRoles in s.events
    ensures r.lastVoicePresentIds != raid.lastVoicePresentIds ==> VoiceReport in s.events
  {
    var flagged := WithFlags(raid, s.flags);
    var prepared := if AssignTempRoles in s.events then PrepareTempRole(flagged, env) else flagged;
    if VoiceReport in s.events
    then RecordVoiceReport(prepared, env.reportChannelReachable, env.voiceMembers)
    else prepared
  }

  /** A tick's flags and events are those of the flag steps alone. */
  lemma TickIsFlagTick(raid: RaidEvent, now: int, voiceCheckAfterMinutes: int, env: TickEnv)
    ensures var s := FlagTick(FlagsOf(raid), ScheduleOf(raid, voiceCheckAfterMinutes), now);
      var (r, events) := Tick(raid, now, voiceCheckAfterMinutes, env);
      FlagsOf(r) == s.flags && events == s.events
  {
  }

  /** The two records a tick keeps besides its flags, stated from the raid
      before it: the temporary role is stored exactly when the preparation
      runs, the channel is reachable, no stored role still exists and a new
      one was created; the present users are stored exactly when the voice
      report runs and its channel is reachable. */
  lemma TickRecords(raid: RaidEvent, now: int, voiceCheckAfterMinutes: int, env: TickEnv)
    ensures var (r, events) := Tick(raid, now, voiceCheckAfterMinutes, env);
      r.tempRoleId ==
        if && AssignTempRoles in events && Truthy(raid.channelId) && env.prepChannelReachable
           && !(Truthy(raid.tempRoleId) && env.tempRoleExists) && env.createdRoleId.Some?
        then env.createdRoleId else raid.tempRoleId
    ensures var (r, events) := Tick(raid, now, voiceCheckAfterMinutes, env);
      r.lastVoicePresentIds ==
        if VoiceReport in events && Truthy(raid.channelId) && env.reportChannelReachable
        then VoiceAttendance(raid, env.voiceMembers).presentExpected else raid.lastVoicePresentIds
  {
    var s := FlagTick(FlagsOf(raid), ScheduleOf(raid, voiceCheckAfterMinutes), now);
    RecordedFields(raid, s, env);
  }

  lemma RecordedFields(raid: RaidEvent, s: Step, env: TickEnv)
    ensures Record(raid, s, env).tempRoleId ==
        if && AssignTempRoles in s.events && Truthy(raid.channelId) && env.prepChannelReachable
           && !(Truthy(raid.tempRoleId) && env.tempRoleExists) && env.createdRoleId.Some?
        then env.createdRoleId else raid.tempRoleId
    ensures Record(raid, s, env).lastVoicePresentIds ==
        if VoiceReport in s.events && Truthy(raid.channelId) && env.reportChannelReachable
        then VoiceAttendance(raid, env.voiceMembers).presentExpected else raid.lastVoicePresentIds
  {
    var flagged := WithFlags(raid, s.flags);
    var prepared := if AssignTempRoles in s.events then PrepareTempRole(flagged, env) else flagged;
    SameAttendance(raid, prepared, env.voiceMembers);
  }

  /** The voice report only looks at the sign-ups and the absent set. */
  lemma SameAttendance(a: RaidEvent, b: RaidEvent, voice: Option<set<int>>)
    requires a.signups == b.signups && a.absent == b.absent
    ensures VoiceAttendance(a, voice) == VoiceAttendance(b, voice)
  {
    assert Expected(a) == Expected(b);
  }

  /** The flags after a tick, each stated from the flags before it: a flag
      is set when its time has come and never reset, nothing happens once
      the raid is cleaned up, and the preparation is skipped for a raid
      already pinged. */
  lemma FlagTickFlags(f: Flags, sc: Schedule, now: int)
    ensures var g := FlagTick(f, sc, now).flags;
      && (g.prep <==> f.prep || (!f.cleanup && !f.ping && now >= sc.prepAt))
      && (g.ping <==> f.ping || (!f.cleanup && now >= sc.startAt))
      && (g.voice <==> f.voice || (!f.cleanup && now >= sc.checkAt))
      && (g.cleanup <==> f.cleanup || now >= sc.cleanupAt)
  {
  }

  lemma TickFlags(raid: RaidEvent, now: int, voiceCheckAfterMinutes: int, env: TickEnv)
    ensures var r := Tick(raid, now, voiceCheckAfterMinutes, env).0;
      var sc := ScheduleOf(raid, voiceCheckAfterMinutes);
      && (r.prepDone <==> raid.prepDone || (!raid.cleanupDone && !raid.pingDone && now >= sc.prepAt))
      && (r.pingDone <==> raid.pingDone || (!raid.cleanupDone && now >= raid.startAt))
      && (r.voiceCheckDone <==> raid.voiceCheckDone || (!raid.cleanupDone && now >= sc.checkAt))
      && (r.cleanupDone <==> raid.cleanupDone || now >= sc.cleanupAt)
  {
    TickIsFlagTick(raid, now, voiceCheckAfterMinutes, env);
    FlagTickFlags(FlagsOf(raid), ScheduleOf(raid, voiceCheckAfterMinutes), now);
  }

  /** No tick clears a flag, and the phase shown never goes back. */
  lemma TickMonotone(raid: RaidEvent, now: int, voiceCheckAfterMinutes: int, env: TickEnv)
    ensures var r := Tick(raid, now, voiceCheckAfterMinutes, env).0;
      && (raid.prepDone ==> r.prepDone)
      && (raid.pingDone ==> r.pingDone)
      && (raid.voiceCheckDone ==> r.voiceCheckDone)
      && (raid.cleanupDone ==> r.cleanupDone)
      && PhaseRank(RaidStatus(raid)) <= PhaseRank(RaidStatus(r))
  {
    TickFlags(raid, now, voiceCheckAfterMinutes, env);
  }

  /** With a non-negative cleanup delay, a tick that cleans a raid up has
      pinged it too; with a non-negative preparation lead, a tick that pings
      a raid has prepared it too. */
  lemma TickOrder(raid: RaidEvent, now: int, voiceCheckAfterMinutes: int, env: TickEnv)
    ensures var r := Tick(raid, now, voiceCheckAfterMinutes, env).0;
      raid.cleanupMinutes >= 0 && !raid.cleanupDone && r.cleanupDone ==> r.pingDone
    ensures var r := Tick(raid, now, voiceCheckAfterMinutes, env).0;
      raid.prepMinutes >= 0 && !raid.pingDone && r.pingDone ==> r.prepDone
  {
    TickFlags(raid, now, voiceCheckAfterMinutes, env);
  }

  /** Each side effect of a tick is run exactly when the flag it sets goes
      from unset to set. */
  lemma FlagTickEvents(f: Flags, sc: Schedule, now: int)
    ensures var s := FlagTick(f, sc, now);
      && (AssignTempRoles in s.events <==> !f.prep && s.flags.prep)
      && (PingRaid in s.events <==> !f.ping && s.flags.ping)
      && (VoiceReport in s.events <==> !f.voice && s.flags.voice)
      && (CleanupRaid in s.events <==> !f.cleanup && s.flags.cleanup)
  {
    if !f.cleanup {
      var s1 := PrepStep(f, sc, now);
      var s2 := PingStep(s1.flags, sc, now);
      var s3 := VoiceStep(s2.flags, sc, now);
      var s4 := CleanupStep(s3.flags, sc, now);
      StepsEvents(f, s1, s2, s3, s4);
    }
  }

  /** The events of four steps in a row, each changing only its own flag and
      running only its own side effect besides refreshing the message. */
  lemma StepsEvents(f: Flags, s1: Step, s2: Step, s3: Step, s4: Step)
    requires s1.flags.(prep := f.prep) == f && s2.flags.(ping := s1.flags.ping) == s1.flags
    requires s3.flags.(voice := s2.flags.voice) == s2.flags && s4.flags.(cleanup := s3.flags.cleanup) == s3.flags
    requires AssignTempRoles in s1.events <==> !f.prep && s1.flags.prep
    requires PingRaid in s2.events <==> !s1.flags.ping && s2.flags.ping
    requires VoiceReport in s3.events <==> !s2.flags.voice && s3.flags.voice
    requires CleanupRaid in s4.events <==> !s3.flags.cleanup && s4.flags.cleanup
    requires forall x | x in s1.events :: x == AssignTempRoles || x == RefreshMessage
    requires forall x | x in s2.events :: x == PingRaid || x == RefreshMessage
    requires forall x | x in s3.events :: x == VoiceReport
    requires forall x | x in s4.events :: x == CleanupRaid || x == RefreshMessage
    ensures var all := s1.events + s2.events + s3.events + s4.events;
      && (AssignTempRoles in all <==> !f.prep && s4.flags.prep)
      && (PingRaid in all <==> !f.ping && s4.flags.ping)
      && (VoiceReport in all <==> !f.voice && s4.flags.voice)
      && (CleanupRaid in all <==> !f.cleanup && s4.flags.cleanup)
  {
    var all := s1.events + s2.events + s3.events + s4.events;
    assert forall x :: x in all <==> x in s1.events || x in s2.events || x in s3.events || x in s4.events;
  }

  lemma TickEvents(raid: RaidEvent, now: int, voiceCheckAfterMinutes: int, env: TickEnv)
    ensures var (r, events) := Tick(raid, now, voiceCheckAfterMinutes, env);
      && (AssignTempRoles in events <==> !raid.prepDone && r.prepDone)
      && (PingRaid in events <==> !raid.pingDone && r.pingDone)
      && (VoiceReport in events <==> !raid.voiceCheckDone && r.voiceCheckDone)
      && (CleanupRaid in events <==> !raid.cleanupDone && r.cleanupDone)
  {
    TickIsFlagTick(raid, now, voiceCheckAfterMinutes, env);
    FlagTickEvents(FlagsOf(raid), ScheduleOf(raid, voiceCheckAfterMinutes), now);
  }

  /** Running a second tick at the same time, whatever the platform then
      answers, sets and records nothing more and can only refresh the
      message again. */
  lemma TickTwice(raid: RaidEvent, now: int, voiceCheckAfterMinutes: int, env: TickEnv, env2: TickEnv)
    ensures var once := Tick(raid, now, voiceCheckAfterMinutes, env);
      var twice := Tick(once.0, now, voiceCheckAfterMinutes, env2);
      && twice.0 == once.0
      && forall k | 0 <= k < |twice.1| :: twice.1[k] == RefreshMessage
  {
    var once := Tick(raid, now, voiceCheckAfterMinutes, env);
    TickFlags(raid, now, voiceCheckAfterMinutes, env);
    TickFlags(once.0, now, voiceCheckAfterMinutes, env2);
    TickEvents(once.0, now, voiceCheckAfterMinutes, env2);
    var twice := Tick(once.0, now, voiceCheckAfterMinutes, env2);
    assert twice.0 == once.0;
    forall k | 0 <= k < |twice.1| ensures twice.1[k] == RefreshMessage {
      assert twice.1[k] in twice.1;
    }
  }

  /* ---------- voice attendance ---------- */

  datatype Attendance = Attendance(presentExpected: seq<int>, presentUnexpected: seq<int>, missingExpected: seq<int>)

  /** The users expected in voice: signed up and not absent. */
  function Expected(raid: RaidEvent): (e: set<int>)
    ensures forall u :: u in e <==> u !in raid.absent && exists j :: 0 <= j < |raid.signups| && raid.signups[j].userId == u
  {
    set j | 0 <= j < |raid.signups| && raid.signups[j].userId !in raid.absent :: raid.signups[j].userId
  }

  /** The voice report's three lists, each in increasing id order, given the
      non-bot members in the raid's voice channel (None when the raid has no
      voice channel: everyone expected counts as present). */
  function VoiceAttendance(raid: RaidEvent, voice: Option<set<int>>): (a: Attendance)
    ensures StrictlyIncreasing(a.presentExpected)
    ensures StrictlyIncreasing(a.presentUnexpected)
    ensures StrictlyIncreasing(a.missingExpected)
  {
    var expected := Expected(raid);
    match voice
    case None => Attendance(SortedFromSet(expected), [], [])
    case Some(members) =>
      Attendance(SortedFromSet(expected * members), SortedFromSet(members - expected), SortedFromSet(expected - members))
  }

  /** With a voice channel, every expected user and every voice member is in
      exactly one of the three lists; without one, the present list is
      exactly the expected users. */
  lemma AttendancePartition(raid: RaidEvent, voice: Option<set<int>>, u: int)
    ensures var a := VoiceAttendance(raid, voice);
      voice.None? ==> (u in a.presentExpected <==> u in Expected(raid)) && a.presentUnexpected == [] && a.missingExpected == []
    ensures var a := VoiceAttendance(raid, voice);
      voice.Some? ==>
        && (u in a.presentExpected <==> u in Expected(raid) && u in voice.value)
        && (u in a.presentUnexpected <==> u !in Expected(raid) && u in voice.value)
        && (u in a.missingExpected <==> u in Expected(raid) && u !in voice.value)
  {
  }

  /** `_send_voice_report` keeps the present expected users on the raid; it
      stops early, changing nothing, when the raid's text channel is not set
      or cannot be reached. */
  function RecordVoiceReport(raid: RaidEvent, channelReachable: bool, voice: Option<set<int>>): (r: RaidEvent)
    ensures !Truthy(raid.channelId) || !channelReachable ==> r == raid
    ensures Truthy(raid.channelId) && channelReachable ==>
      r == raid.(lastVoicePresentIds := VoiceAttendance(raid, voice).presentExpected)
  {
    if !Truthy(raid.channelId) || !channelReachable then raid
    else raid.(lastVoicePresentIds := VoiceAttendance(raid, voice).presentExpected)
  }
}
