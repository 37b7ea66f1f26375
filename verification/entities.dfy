/** The persisted records of the bot: composition templates, raids with their
    sign-ups, bank actions, and ticket records with their message snapshots.
    A Python `dict` whose iteration order matters is a sequence in insertion
    order; a `set` is a set. */
module Entities {
  import opened Base

  /* ---------- composition templates ---------- */

  datatype ContentType = AvaRaid | Pvp | Pve

  /** One role of a composition: `slots` main places; joining may demand an
      item-power value and one of the listed platform roles. */
  datatype CompRole = CompRole(
    key: string,
    roleLabel: string,
    slots: int,
    ipRequired: bool,
    requiredRoleIds: seq<int>)

  datatype CompTemplate = CompTemplate(
    name: string,
    description: string,
    createdBy: int,
    contentType: ContentType,
    createdAt: int,
    raidRequiredRoleIds: seq<int>,
    roles: seq<CompRole>)

  /* ---------- raids ---------- */

  datatype SignupStatus = Main | Wait

  datatype Signup = Signup(
    userId: int,
    roleKey: string,
    status: SignupStatus,
    ip: Option<int>,
    joinedAt: int)

  /** A scheduled raid. `signups` is the user-to-sign-up dictionary in insertion
      order, one entry per user; `absent` holds the users who declared they
      will not come. The four flags record the phases already carried out. */
  datatype RaidEvent = RaidEvent(
    raidId: string,
    templateName: string,
    title: string,
    description: string,
    extraMessage: string,
    startAt: int,
    createdBy: int,
    createdAt: int,
    channelId: Option<int>,
    messageId: Option<int>,
    threadId: Option<int>,
    voiceChannelId: Option<int>,
    signups: seq<Signup>,
    absent: set<int>,
    prepMinutes: int,
    cleanupMinutes: int,
    tempRoleId: Option<int>,
    prepDone: bool,
    pingDone: bool,
    voiceCheckDone: bool,
    cleanupDone: bool,
    lastVoicePresentIds: seq<int>,
    dmNotifyUsers: set<int>)

  /* ---------- bank ---------- */

  datatype BankActionType = Add | Remove | AddSplit | RemoveSplit

  /** One recorded balance change: `deltas` maps each target user to the amount
      added to their balance (negative for a removal). */
  datatype BankAction = BankAction(
    actionId: string,
    guildId: int,
    actorId: int,
    createdAt: int,
    actionType: BankActionType,
    deltas: map<int, int>,
    note: string,
    undone: bool,
    undoneAt: Option<int>)

  /* ---------- tickets ---------- */

  datatype SnapshotEvent = Message | MessageEdit | MessageDelete | TicketClosed | TicketDeleted

  datatype TicketSnapshot = TicketSnapshot(
    ticketId: string,
    eventType: SnapshotEvent,
    createdAt: int,
    guildId: Option<int>,
    channelId: int,
    messageId: Option<int>,
    authorId: Option<int>,
    authorName: string,
    messageCreatedAt: Option<int>,
    messageEditedAt: Option<int>,
    content: string,
    previousContent: string,
    attachments: seq<map<string, string>>,
    embeds: seq<map<string, string>>)

  datatype TicketStatus = Open | Closed | Deleted

  datatype TicketRecord = TicketRecord(
    ticketId: string,
    guildId: Option<int>,
    channelId: int,
    ownerId: Option<int>,
    status: TicketStatus,
    createdAt: int,
    closedAt: Option<int>,
    transcriptMarkdown: string,
    transcriptHtml: string,
    transcriptPath: string)
}
