/** The in-memory state of the bot's store: bank balances per guild, the
    bounded per-guild bank action log, permission role lists, and ticket
    records with their message snapshots. Every operation is a pure function
    from the old state to the new one. */
module StoreState {
  import opened Base
  import opened Chars
  import opened Entities

  /** The action list of one guild; the log is the guild-to-list dictionary in
      insertion order. */
  datatype GuildLog = GuildLog(guildId: int, actions: seq<BankAction>)

  datatype Store = Store(
    balances: map<int, map<int, int>>,
    actionLogs: seq<GuildLog>,
    actionLogLimit: int,
    permissions: map<int, map<string, seq<int>>>,
    tickets: seq<TicketRecord>,
    ticketEvents: map<string, seq<TicketSnapshot>>)

  /** Dictionary keys are unique: one log per guild, one record per ticket id. */
  predicate Valid(st: Store) {
    && (forall i, j | 0 <= i < j < |st.actionLogs| :: st.actionLogs[i].guildId != st.actionLogs[j].guildId)
    && DistinctTicketIds(st.tickets)
  }

  predicate DistinctTicketIds(tickets: seq<TicketRecord>) {
    forall i, j | 0 <= i < j < |tickets| :: tickets[i].ticketId != tickets[j].ticketId
  }

  /* ---------- balances ---------- */

  /** `bank_get_balance`: 0 for an unknown guild or user. */
  function GetBalance(st: Store, guildId: int, userId: int): int {
    if guildId in st.balances && userId in st.balances[guildId] then st.balances[guildId][userId] else 0
  }

  /** `bank_set_balance`. */
  function SetBalance(st: Store, guildId: int, userId: int, bal: int): (r: Store)
    ensures GetBalance(r, guildId, userId) == bal
    ensures forall g, u | g != guildId || u != userId :: GetBalance(r, g, u) == GetBalance(st, g, u)
    ensures r.(balances := st.balances) == st
  {
    var inner := if guildId in st.balances then st.balances[guildId] else map[];
    st.(balances := st.balances[guildId := inner[userId := bal]])
  }

  /** A fresh store reads every balance as 0. */
  lemma EmptyBalances(st: Store, g: int, u: int)
    requires st.balances == map[]
    ensures GetBalance(st, g, u) == 0
  {
  }

  /* ---------- the bank action log ---------- */

  function LogIndex(logs: seq<GuildLog>, guildId: int): (r: Option<nat>)
    ensures r.Some? ==> r.value < |logs| && logs[r.value].guildId == guildId
    ensures r.Some? ==> forall k | 0 <= k < r.value :: logs[k].guildId != guildId
    ensures r.None? ==> forall k | 0 <= k < |logs| :: logs[k].guildId != guildId
  {
    if logs == [] then None
    else if logs[0].guildId == guildId then Some(0)
    else match LogIndex(logs[1..], guildId)
      case None => None
      case Some(k) => Some(k + 1)
  }

  /** `bank_actions.get(guild_id, [])`. */
  function GuildActions(st: Store, guildId: int): seq<BankAction> {
    match LogIndex(st.actionLogs, guildId)
    case None => []
    case Some(i) => st.actionLogs[i].actions
  }

  /** Python's slice `s[-n:]`, which keeps everything when `n == 0` and drops
      the first `-n` elements when `n` is negative. */
  function PyTail<T>(s: seq<T>, n: int): seq<T> {
    if n > 0 then (if n >= |s| then s else s[|s| - n..])
    else if n == 0 then s
    else if -n >= |s| then []
    else s[-n..]
  }

  predicate IsSuffix<T(==)>(t: seq<T>, s: seq<T>) {
    |t| <= |s| && s[|s| - |t|..] == t
  }

  /** The list that `bank_append_action` leaves for the guild: the old list
      plus the new action, cut to the limit when it exceeds it. */
  function Bounded(list: seq<BankAction>, limit: int): (r: seq<BankAction>)
    ensures limit >= 1 ==> IsSuffix(r, list) && |r| == Min(limit, |list|)
    ensures limit == 0 ==> r == list
    ensures limit < 0 ==> IsSuffix(r, list) && |r| == |list| - Min(-limit, |list|)
  {
    if |list| > limit then PyTail(list, limit) else list
  }

  /** `bank_append_action`: the action becomes the last one of its guild's
      list, and when the list outgrows the limit only its most recent entries
      are kept. No other guild's list changes. */
  function AppendAction(st: Store, a: BankAction): (r: Store)
    ensures GuildActions(r, a.guildId) == Bounded(GuildActions(st, a.guildId) + [a], st.actionLogLimit)
    ensures forall g | g != a.guildId :: GuildActions(r, g) == GuildActions(st, g)
    ensures r.(actionLogs := st.actionLogs) == st
    ensures Valid(st) ==> Valid(r)
  {
    var g := a.guildId;
    match LogIndex(st.actionLogs, g)
    case Some(i) =>
      var logs := st.actionLogs[i := GuildLog(g, Bounded(st.actionLogs[i].actions + [a], st.actionLogLimit))];
      AppendToExisting(st, i, logs);
      st.(actionLogs := logs)
    case None =>
      var logs := st.actionLogs + [GuildLog(g, Bounded([a], st.actionLogLimit))];
      AppendNewGuild(st, logs);
      st.(actionLogs := logs)
  }

  lemma AppendToExisting(st: Store, i: nat, logs: seq<GuildLog>)
    requires i < |st.actionLogs| && LogIndex(st.actionLogs, st.actionLogs[i].guildId) == Some(i)
    requires |logs| == |st.actionLogs| && logs[i].guildId == st.actionLogs[i].guildId
    requires forall k | 0 <= k < |logs| && k != i :: logs[k] == st.actionLogs[k]
    ensures GuildActions(st.(actionLogs := logs), logs[i].guildId) == logs[i].actions
    ensures forall g | g != logs[i].guildId :: GuildActions(st.(actionLogs := logs), g) == GuildActions(st, g)
    ensures Valid(st) ==> Valid(st.(actionLogs := logs))
  {
    LogIndexAfterUpdate(st.actionLogs, i, logs);
  }

  lemma AppendNewGuild(st: Store, logs: seq<GuildLog>)
    requires |logs| == |st.actionLogs| + 1 && logs[..|st.actionLogs|] == st.actionLogs
    requires LogIndex(st.actionLogs, logs[|st.actionLogs|].guildId).None?
    ensures GuildActions(st.(actionLogs := logs), logs[|st.actionLogs|].guildId) == logs[|st.actionLogs|].actions
    ensures forall g | g != logs[|st.actionLogs|].guildId :: GuildActions(st.(actionLogs := logs), g) == GuildActions(st, g)
    ensures Valid(st) ==> Valid(st.(actionLogs := logs))
  {
    LogIndexAfterAppend(st.actionLogs, logs);
    assert forall k | 0 <= k < |st.actionLogs| :: logs[k] == st.actionLogs[k];
  }

  lemma LogIndexAfterUpdate(logs: seq<GuildLog>, i: nat, logs': seq<GuildLog>)
    requires i < |logs| && |logs'| == |logs|
    requires logs'[i].guildId == logs[i].guildId
    requires forall k | 0 <= k < |logs| && k != i :: logs'[k] == logs[k]
    ensures forall g :: LogIndex(logs', g) == LogIndex(logs, g)
  {
    assert forall k | 0 <= k < |logs| :: logs'[k].guildId == logs[k].guildId;
    forall g ensures LogIndex(logs', g) == LogIndex(logs, g) {
      var a, b := LogIndex(logs', g), LogIndex(logs, g);
      if a.Some? && b.Some? {
        assert a.value == b.value;
      }
    }
  }

  lemma {:induction false} LogIndexSnoc(logs: seq<GuildLog>, x: GuildLog, g: int)
    ensures LogIndex(logs + [x], g) ==
      if LogIndex(logs, g).Some? then LogIndex(logs, g) else if x.guildId == g then Some(|logs|) else None
  {
    if logs != [] {
      assert (logs + [x])[1..] == logs[1..] + [x];
      LogIndexSnoc(logs[1..], x, g);
    }
  }

  lemma LogIndexAfterAppend(logs: seq<GuildLog>, logs': seq<GuildLog>)
    requires |logs'| == |logs| + 1 && logs'[..|logs|] == logs
    ensures forall g | g != logs'[|logs|].guildId :: LogIndex(logs', g) == LogIndex(logs, g)
    ensures LogIndex(logs, logs'[|logs|].guildId).None? ==> LogIndex(logs', logs'[|logs|].guildId) == Some(|logs|)
  {
    assert logs' == logs + [logs'[|logs|]];
    forall g {
      LogIndexSnoc(logs, logs'[|logs|], g);
    }
  }

  /** The action can be undone by `actor`: it is theirs and not undone yet. */
  predicate UndoableBy(a: BankAction, actor: int) {
    a.actorId == actor && !a.undone
  }

  /** The position of the most recent action of `actor` that is not undone. */
  function LastUndoableIndex(actions: seq<BankAction>, actor: int): (r: Option<nat>)
    ensures r.Some? ==> r.value < |actions| && UndoableBy(actions[r.value], actor)
    ensures r.Some? ==> forall k | r.value < k < |actions| :: !UndoableBy(actions[k], actor)
    ensures r.None? ==> forall k | 0 <= k < |actions| :: !UndoableBy(actions[k], actor)
  {
    if actions == [] then None
    else if UndoableBy(actions[|actions| - 1], actor) then Some(|actions| - 1)
    else LastUndoableIndex(actions[..|actions| - 1], actor)
  }

  /** `bank_find_last_action_for_actor`: the latest-appended action of the
      actor in that guild that is not undone, or None when there is none. */
  function FindLastAction(st: Store, guildId: int, actor: int): (r: Option<BankAction>)
    ensures var list := GuildActions(st, guildId);
      r.None? <==> forall k | 0 <= k < |list| :: !UndoableBy(list[k], actor)
    ensures var list := GuildActions(st, guildId);
      r.Some? ==> exists k | 0 <= k < |list| ::
        (list[k] == r.value && UndoableBy(list[k], actor) && forall k' | k < k' < |list| :: !UndoableBy(list[k'], actor))
  {
    var list := GuildActions(st, guildId);
    match LastUndoableIndex(list, actor)
    case None => None
    case Some(k) => Some(list[k])
  }

  function ActionIndexById(actions: seq<BankAction>, actionId: string): (r: Option<nat>)
    ensures r.Some? ==> r.value < |actions| && actions[r.value].actionId == actionId
    ensures r.Some? ==> forall k | 0 <= k < r.value :: actions[k].actionId != actionId
    ensures r.None? ==> forall k | 0 <= k < |actions| :: actions[k].actionId != actionId
  {
    if actions == [] then None
    else if actions[0].actionId == actionId then Some(0)
    else match ActionIndexById(actions[1..], actionId)
      case None => None
      case Some(k) => Some(k + 1)
  }

  /** Where `bank_mark_action_undone` finds the action: the first guild list,
      in dictionary order, holding that id, and the first position in it. */
  function LocateAction(logs: seq<GuildLog>, actionId: string): (r: Option<(nat, nat)>)
    ensures r.Some? ==> r.value.0 < |logs|
    ensures r.Some? ==> ActionIndexById(logs[r.value.0].actions, actionId) == Some(r.value.1)
    ensures r.Some? ==> forall i | 0 <= i < r.value.0 :: ActionIndexById(logs[i].actions, actionId).None?
    ensures r.None? ==> forall i | 0 <= i < |logs| :: ActionIndexById(logs[i].actions, actionId).None?
  {
    if logs == [] then None
    else match ActionIndexById(logs[0].actions, actionId)
      case Some(k) => Some((0, k))
      case None =>
        match LocateAction(logs[1..], actionId)
        case None => None
        case Some(p) => Some((p.0 + 1, p.1))
  }

  function MarkUndone(a: BankAction, at: int): BankAction {
    a.(undone := true, undoneAt := Some(at))
  }

  /** The scan of `bank_mark_action_undone`, guild list by guild list. */
  function MarkIn(logs: seq<GuildLog>, actionId: string, at: int): seq<GuildLog> {
    if logs == [] then []
    else match ActionIndexById(logs[0].actions, actionId)
      case Some(k) => [logs[0].(actions := logs[0].actions[k := MarkUndone(logs[0].actions[k], at)])] + logs[1..]
      case None => [logs[0]] + MarkIn(logs[1..], actionId, at)
  }

  /** `bank_mark_action_undone`: the first action with that id is marked undone
      at `at`; nothing else changes, and nothing at all when no action has it. */
  function MarkActionUndone(st: Store, actionId: string, at: int): (r: Store)
    ensures LocateAction(st.actionLogs, actionId).None? ==> r == st
    ensures LocateAction(st.actionLogs, actionId).Some? ==>
      var (i, k) := LocateAction(st.actionLogs, actionId).value;
      var log := st.actionLogs[i];
      r == st.(actionLogs := st.actionLogs[i := log.(actions := log.actions[k := MarkUndone(log.actions[k], at)])])
  {
    MarkInLocates(st.actionLogs, actionId, at);
    st.(actionLogs := MarkIn(st.actionLogs, actionId, at))
  }

  lemma {:induction false} MarkInLocates(logs: seq<GuildLog>, actionId: string, at: int)
    ensures LocateAction(logs, actionId).None? ==> MarkIn(logs, actionId, at) == logs
    ensures LocateAction(logs, actionId).Some? ==>
      var (i, k) := LocateAction(logs, actionId).value;
      MarkIn(logs, actionId, at) == logs[i := logs[i].(actions := logs[i].actions[k := MarkUndone(logs[i].actions[k], at)])]
  {
    if logs != [] && ActionIndexById(logs[0].actions, actionId).None? {
      MarkInLocates(logs[1..], actionId, at);
      assert logs == [logs[0]] + logs[1..];
    }
  }

  /** Once marked, an action is never again the one the last-action lookup
      returns, for any actor. */
  lemma MarkedIsNotUndoable(st: Store, actionId: string, at: int, actor: int)
    requires LocateAction(st.actionLogs, actionId).Some?
    ensures var (i, k) := LocateAction(st.actionLogs, actionId).value;
      LastUndoableIndex(MarkActionUndone(st, actionId, at).actionLogs[i].actions, actor) != Some(k)
  {
  }

  /** Marking keeps the one-log-per-guild shape of the store. */
  lemma MarkKeepsValid(st: Store, actionId: string, at: int)
    requires Valid(st)
    ensures Valid(MarkActionUndone(st, actionId, at))
  {
  }

  /* ---------- permission roles ---------- */

  /** `get_permission_role_ids`: `[]` for a missing guild or key. */
  function GetPermissionRoleIds(st: Store, guildId: int, key: string): seq<int> {
    if guildId in st.permissions && key in st.permissions[guildId] then st.permissions[guildId][key] else []
  }

  /** `set_permission_role_ids`: reading back gives the list stored; every other
      guild and key reads as before. */
  function SetPermissionRoleIds(st: Store, guildId: int, key: string, roleIds: seq<int>): (r: Store)
    ensures GetPermissionRoleIds(r, guildId, key) == roleIds
    ensures forall g, k | g != guildId || k != key :: GetPermissionRoleIds(r, g, k) == GetPermissionRoleIds(st, g, k)
    ensures r.(permissions := st.permissions) == st
  {
    var inner := if guildId in st.permissions then st.permissions[guildId] else map[];
    st.(permissions := st.permissions[guildId := inner[key := roleIds]])
  }

  /* ---------- tickets ---------- */

  function TicketIndexByChannel(tickets: seq<TicketRecord>, channelId: int): (r: Option<nat>)
    ensures r.Some? ==> r.value < |tickets| && tickets[r.value].channelId == channelId
    ensures r.Some? ==> forall k | 0 <= k < r.value :: tickets[k].channelId != channelId
    ensures r.None? ==> forall k | 0 <= k < |tickets| :: tickets[k].channelId != channelId
  {
    if tickets == [] then None
    else if tickets[0].channelId == channelId then Some(0)
    else match TicketIndexByChannel(tickets[1..], channelId)
      case None => None
      case Some(k) => Some(k + 1)
  }

  /** `ticket_get_by_channel`: the first record, in dictionary order, for that channel. */
  function TicketGetByChannel(st: Store, channelId: int): (r: Option<TicketRecord>)
    ensures r.None? <==> forall k | 0 <= k < |st.tickets| :: st.tickets[k].channelId != channelId
    ensures r.Some? ==> r.value.channelId == channelId && r.value in st.tickets
  {
    match TicketIndexByChannel(st.tickets, channelId)
    case None => None
    case Some(i) => Some(st.tickets[i])
  }

  function TicketIndexById(tickets: seq<TicketRecord>, ticketId: string): (r: Option<nat>)
    ensures r.Some? ==> r.value < |tickets| && tickets[r.value].ticketId == ticketId
    ensures r.None? ==> forall k | 0 <= k < |tickets| :: tickets[k].ticketId != ticketId
  {
    if tickets == [] then None
    else if tickets[0].ticketId == ticketId then Some(0)
    else match TicketIndexById(tickets[1..], ticketId)
      case None => None
      case Some(k) => Some(k + 1)
  }

  /** `tickets[t.ticket_id] = t`: replaces the record with that id where it
      stands, or appends a new one. */
  function PutTicket(tickets: seq<TicketRecord>, t: TicketRecord): (r: seq<TicketRecord>)
    ensures t in r
    ensures forall k | 0 <= k < |r| :: r[k] == t || r[k] in tickets
    ensures forall k | 0 <= k < |tickets| && tickets[k].ticketId != t.ticketId :: tickets[k] in r
  {
    match TicketIndexById(tickets, t.ticketId)
    case Some(i) =>
      var r := tickets[i := t];
      assert r[i] == t;
      assert forall k | 0 <= k < |r| && k != i :: r[k] == tickets[k];
      r
    case None => tickets + [t]
  }

  /** The id of a new ticket: `"{channel}-{now}"`. */
  function TicketId(channelId: int, now: int): string {
    IntToString(channelId) + "-" + IntToString(now)
  }

  /** `ticket_get_or_create`: an existing record for the channel comes back with
      only its owner filled in when it had none; otherwise a new open record is
      stored under `"{channel}-{now}"` and given an event list if it had none. */
  function TicketGetOrCreate(st: Store, channelId: int, guildId: Option<int>, ownerId: Option<int>, now: int): (r: (Store, TicketRecord))
    ensures TicketGetByChannel(st, channelId).Some? ==>
      var old_ := TicketGetByChannel(st, channelId).value;
      && r.1 == old_.(ownerId := if old_.ownerId.None? && ownerId.Some? then ownerId else old_.ownerId)
      && r.0.(tickets := st.tickets) == st
      && |r.0.tickets| == |st.tickets|
      && forall k | 0 <= k < |st.tickets| && st.tickets[k] != old_ :: r.0.tickets[k] == st.tickets[k]
    ensures TicketGetByChannel(st, channelId).None? ==>
      && r.1 == TicketRecord(TicketId(channelId, now), guildId, channelId, ownerId, Open, now, None, "", "", "")
      && r.0.tickets == PutTicket(st.tickets, r.1)
      && r.0.ticketEvents == (if r.1.ticketId in st.ticketEvents then st.ticketEvents else st.ticketEvents[r.1.ticketId := []])
      && r.0.(tickets := st.tickets, ticketEvents := st.ticketEvents) == st
    ensures TicketGetByChannel(r.0, channelId) == Some(r.1)
    ensures Valid(st) ==> Valid(r.0)
  {
    match TicketIndexByChannel(st.tickets, channelId)
    case Some(i) =>
      var old_ := st.tickets[i];
      var t := if old_.ownerId.None? && ownerId.Some? then old_.(ownerId := ownerId) else old_;
      var tickets := st.tickets[i := t];
      ChannelIndexAfterUpdate(st.tickets, i, t);
      (st.(tickets := tickets), t)
    case None =>
      var t := TicketRecord(TicketId(channelId, now), guildId, channelId, ownerId, Open, now, None, "", "", "");
      var tickets := PutTicket(st.tickets, t);
      var events := if t.ticketId in st.ticketEvents then st.ticketEvents else st.ticketEvents[t.ticketId := []];
      OnlyTicketForChannel(st.tickets, t, tickets);
      PutTicketKeepsDistinct(st.tickets, t);
      (st.(tickets := tickets, ticketEvents := events), t)
  }

  /** Updating the first record of a channel in place, keeping its id and
      channel, keeps it the first record of that channel and keeps ids unique. */
  lemma ChannelIndexAfterUpdate(tickets: seq<TicketRecord>, i: nat, t: TicketRecord)
    requires TicketIndexByChannel(tickets, t.channelId) == Some(i)
    requires t.ticketId == tickets[i].ticketId
    ensures TicketIndexByChannel(tickets[i := t], t.channelId) == Some(i)
    ensures var r := tickets[i := t]; forall k | 0 <= k < |r| && k != i :: r[k] == tickets[k]
    ensures DistinctTicketIds(tickets) ==> DistinctTicketIds(tickets[i := t])
  {
    var r := tickets[i := t];
    assert r[i] == t;
    assert forall k | 0 <= k < |r| && k != i :: r[k] == tickets[k];
  }

  lemma OnlyTicketForChannel(tickets: seq<TicketRecord>, t: TicketRecord, r: seq<TicketRecord>)
    requires forall k | 0 <= k < |tickets| :: tickets[k].channelId != t.channelId
    requires r == PutTicket(tickets, t)
    ensures TicketIndexByChannel(r, t.channelId) == Some(TicketIndexByChannel(r, t.channelId).value)
    ensures TicketIndexByChannel(r, t.channelId).Some? && r[TicketIndexByChannel(r, t.channelId).value] == t
  {
    var j :| 0 <= j < |r| && r[j] == t;
    assert r[j].channelId == t.channelId;
    var a := TicketIndexByChannel(r, t.channelId);
    assert a.Some?;
    if r[a.value] != t {
      assert false;
    }
  }

  lemma PutTicketKeepsDistinct(tickets: seq<TicketRecord>, t: TicketRecord)
    ensures DistinctTicketIds(tickets) ==> DistinctTicketIds(PutTicket(tickets, t))
  {
    match TicketIndexById(tickets, t.ticketId)
    case Some(i) =>
      var r := tickets[i := t];
      assert forall k | 0 <= k < |r| && k != i :: r[k] == tickets[k];
    case None =>
      var r := tickets + [t];
      assert forall k | 0 <= k < |tickets| :: r[k] == tickets[k];
  }

  /** Asking twice for the same channel and owner returns the same record and
      leaves the store as the first call left it. */
  lemma GetOrCreateIdempotent(st: Store, channelId: int, guildId: Option<int>, ownerId: Option<int>, now: int, guild2: Option<int>, now2: int)
    ensures var (st1, t1) := TicketGetOrCreate(st, channelId, guildId, ownerId, now);
      TicketGetOrCreate(st1, channelId, guild2, ownerId, now2) == (st1, t1)
  {
    var (st1, t1) := TicketGetOrCreate(st, channelId, guildId, ownerId, now);
    var i := TicketIndexByChannel(st1.tickets, channelId).value;
    assert st1.tickets[i] == t1;
    assert st1.tickets[i := t1] == st1.tickets;
  }

  /** `ticket_list_snapshots`: the ticket's events in append order, or `[]`. */
  function TicketListSnapshots(st: Store, ticketId: string): seq<TicketSnapshot> {
    if ticketId in st.ticketEvents then st.ticketEvents[ticketId] else []
  }

  /** `ticket_append_snapshot`: the snapshot is added at the end of its ticket's
      list (created when missing); every other ticket's list is unchanged. */
  function TicketAppendSnapshot(st: Store, snap: TicketSnapshot): (r: Store)
    ensures TicketListSnapshots(r, snap.ticketId) == TicketListSnapshots(st, snap.ticketId) + [snap]
    ensures forall id | id != snap.ticketId :: TicketListSnapshots(r, id) == TicketListSnapshots(st, id)
    ensures r.(ticketEvents := st.ticketEvents) == st
  {
    var list := if snap.ticketId in st.ticketEvents then st.ticketEvents[snap.ticketId] else [];
    st.(ticketEvents := st.ticketEvents[snap.ticketId := list + [snap]])
  }

  /** `ticket_finalize`: None, with the store untouched, when no ticket has the
      channel; otherwise that ticket gets the status, `closed_at = now` and the
      three transcript fields, in place, and is returned. */
  function TicketFinalize(st: Store, channelId: int, status: TicketStatus, markdown: string, html: string, path: string, now: int): (r: (Store, Option<TicketRecord>))
    ensures r.1.None? <==> TicketGetByChannel(st, channelId).None?
    ensures r.1.None? ==> r.0 == st
    ensures r.1.Some? ==>
      var old_ := TicketGetByChannel(st, channelId).value;
      && r.1.value == old_.(status := status, closedAt := Some(now), transcriptMarkdown := markdown,
                            transcriptHtml := html, transcriptPath := path)
      && r.0.(tickets := st.tickets) == st
      && |r.0.tickets| == |st.tickets|
      && forall k | 0 <= k < |st.tickets| && st.tickets[k] != old_ :: r.0.tickets[k] == st.tickets[k]
    ensures r.1.Some? ==> TicketGetByChannel(r.0, channelId) == r.1
    ensures Valid(st) ==> Valid(r.0)
  {
    match TicketIndexByChannel(st.tickets, channelId)
    case None => (st, None)
    case Some(i) =>
      var t := st.tickets[i].(status := status, closedAt := Some(now), transcriptMarkdown := markdown,
                              transcriptHtml := html, transcriptPath := path);
      ChannelIndexAfterUpdate(st.tickets, i, t);
      (st.(tickets := st.tickets[i := t]), Some(t))
  }
}
