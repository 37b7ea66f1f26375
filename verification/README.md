# AlbionBot core, modelled in Dafny

AlbionBot is a Discord bot for an Albion Online guild. This project models the parts of it that hold real logic, as pure functions over immutable datatypes:

- **Raid roster and waitlist.** A raid is created from a composition template, which is a list of roles, each with a number of slots. Members pick a role. They land in the main roster while the role has free slots and on the waitlist after that. Waiters are promoted, earliest first, whenever a slot frees up.
- **Raid buttons.** The buttons on a raid message let a member choose a role (with an optional item-power prompt), toggle "absent", leave, and toggle DM notifications.
- **Raid scheduler.** Every tick the scheduler moves each raid through its phases:
  - preparation, which hands out temporary roles;
  - the mass-up ping;
  - the voice attendance report;
  - cleanup.
- **Loot split.** The net loot goes first to the scout's cut, then to the cost of maps. The rest is an even share for every player, with an optional bonus weight for the raid leader.
- **Composition spec parser.** This reads the text form of a template, one `Label;slots;options…` line per role. It produces unique slug keys and a list of warnings. Related pieces:
  - "AvA raid" templates get the reserved Raid Leader and Scout roles at their ends;
  - template-name autocompletion.
- **Guild bank.**
  - Changes are either a flat amount per member or an even split of a total.
  - A funds check runs before any change.
  - Every change is recorded in a bounded action log.
  - A member can undo their latest change within fifteen minutes.
- **Store helpers and text helpers.** The in-memory store behind all of this covers balances, action logs, permission role lists and ticket records. The helpers extract ids, build mentions and cut text.

Design choices:

- Each `async with store.lock` block is one atomic step.
- The current time is a parameter.
- The store lookups of a raid or template arrive as `Option` values.
- The member's platform roles are a set of role ids.
- Python dicts are sequences in insertion order wherever that order shows. For example, ties in the waitlist's stable sort by `joined_at` fall back to sign-up order.

Modules, one per file:

| module | file | contents |
|---|---|---|
| `Base` | `base.dfy` | `Option`, `Outcome`, Python truthiness of an optional id |
| `Chars` | `chars.dfy` | `str.isspace`, ASCII digits and lower case, `strip`, decimal rendering, prefix/substring, lexicographic order |
| `Seqs` | `seqs.dfy` | distinctness, first-occurrence dedup, integer sort, sums over maps |
| `Text` | `text.dfy` | `limit_str`, `chunk_text_lines` |
| `Mentions` | `mentions.dfy` | `parse_ids`, `mention`, `channel_mention`, `has_any_role` |
| `PyInt` | `pyint.dfy` | Python's `int(str)` on ASCII text |
| `Entities` | `entities.dfy` | the store's dataclasses |
| `StoreState` | `store.dfy` | the in-memory store operations |
| `Bank` | `bank.dfy` | deltas, funds check, change, undo |
| `Roster` | `roster.dfy` | counting, waitlist, promotion, sign-up map |
| `RaidActions` | `raidactions.dfy` | the raid buttons |
| `Scheduler` | `scheduler.dfy` | raid status, disabled buttons, scheduler tick, voice attendance |
| `Loot` | `loot.dfy` | `_compute_loot_split` |
| `CompSpec` | `compspec.dfy` | `parse_comp_spec` |
| `Templates` | `templates.dfy` | AvA role forcing, template-name autocompletion |

Behaviours of the code worth knowing, each modelled as written:

- **Post-maps pool.** `_compute_loot_split` clamps the pool twice: `max(0, max(0, net − scout) − maps)`. It never checks the sign of the maps cost. So `post_maps ≤ post_scout` holds only for a non-negative cost (`Loot.NegativeMapsCostAdds`).
- **Second undo.** `/bank_undo` reverses the actor's latest action that is not yet undone. When the action ids in the guild's log are distinct, an undo marks only the entry it reverses. A second undo then reverses the actor's previous action, if any (`Bank.SecondUndo`). The action just undone is never reversed again (`StoreState.MarkedIsNotUndoable`).
- **Millisecond action ids.** An action id is `A` followed by the creation time in milliseconds, so two actions recorded in the same millisecond share an id. The undo also calls `bank_mark_action_undone`, which marks the first action bearing the id in any guild's log. That can be a different action, which is then marked undone although it was never reversed (`Bank.BankUndo` states exactly which entries are marked).
- **Re-selecting a role.** Re-selecting any role, including one's own, overwrites the sign-up with a fresh `joined_at`. The status is decided from the main count taken *before* the overwrite. A member who re-selects the role they already hold in a full main roster therefore becomes a waiter. Promotion may then pick someone else (`RaidActions.FinalizeJoin`, `RaidActions.FinalizeJoinEffect`).

## Model

| member | source | states |
|---|---|---|
| Chars.StripEnds | src/albionbot/modules/raids.py:168 | the stripped text is empty or has a non-whitespace first and last character |
| Chars.StripIsSlice | src/albionbot/modules/raids.py:168 | the stripped text is a contiguous slice of the input with only whitespace cut off either end |
| Chars.StripEmptyIff | src/albionbot/modules/raids.py:168-169 | a line strips to the empty string exactly when it is all whitespace, which is when the parser drops it |
| Chars.StripIdempotent | src/albionbot/modules/raids.py:178-179 | stripping twice is stripping once, so the parser re-stripping a stripped field changes nothing |
| Chars.StripKeepsNonSpace | src/albionbot/utils/text.py:15 | stripping keeps every non-whitespace character in order |
| Chars.Lower | src/albionbot/modules/raids.py:196 | `str.lower()` on ASCII: same length, letters A–Z mapped to a–z, everything else kept |
| Chars.NatToStringInjective | src/albionbot/modules/raids.py:227 | distinct numbers print differently, so the `_n` suffixes are distinct |
| Chars.LexLeTotal | src/albionbot/modules/raids.py:263 | the string order used by `sorted` is total |
| Chars.LexLeTransitive | src/albionbot/modules/raids.py:263 | the string order used by `sorted` is transitive |
| Chars.PrefixIsContained | src/albionbot/modules/raids.py:266-267 | a fact about the two autocompletion filters: a name that starts with the typed text also contains it, so the prefix pass finds nothing the substring pass would miss |
| Seqs.Dedup | src/albionbot/utils/discord.py:13-20 | the "unique stable" loop: no duplicates and exactly the input's members |
| Seqs.DedupSnoc | src/albionbot/utils/discord.py:16-19 | a value already seen is skipped and a new one is appended, so each value stays at its first occurrence |
| Seqs.DedupOfDistinct | src/albionbot/modules/raids.py:268-273 | dedup leaves a list without duplicates unchanged |
| Seqs.DedupFromConcat | src/albionbot/modules/raids.py:270-273 | deduplicating `a + b` is deduplicating `a`, then `b` minus what `a` already showed |
| Seqs.SortInts | src/albionbot/modules/bank.py:66 | `sorted` on integers: ascending and a permutation of its input |
| Seqs.SortedFromSet | src/albionbot/modules/raids.py:502-504 | `sorted(set)`: strictly increasing and exactly the set's members |
| Seqs.SumOverPermutation | src/albionbot/modules/bank.py:147 | a sum over the deltas does not depend on the order of the keys |
| Text.LimitStr | src/albionbot/utils/text.py:3-6 | unchanged when it fits; otherwise a prefix of `max(0, n−1)` characters then `…`, so exactly `n` long for `n ≥ 1` and 1 long otherwise |
| Text.ChunkTextLines | src/albionbot/utils/text.py:8-22 | no chunks for no lines; every chunk is non-empty and stripped; when every line fits with its newline, every chunk fits; the non-whitespace text of the chunks is that of the lines, in order |
| Text.Emit | src/albionbot/utils/text.py:15-16 | a chunk is emitted exactly when the current buffer is not blank, stripped, adding exactly the buffer's non-whitespace text |
| Text.LineContent | src/albionbot/utils/text.py:11 | appending a line and its newline to the buffer adds exactly that line's non-whitespace text |
| Mentions.LeadingDigits | src/albionbot/utils/discord.py:6 | the longest run of digits at the start of the text |
| Mentions.RunsSound | src/albionbot/utils/discord.py:6 | every run found is a maximal run of digits in the text |
| Mentions.RunsComplete | src/albionbot/utils/discord.py:6 | every maximal run of digits in the text is found |
| Mentions.ParseIds | src/albionbot/utils/discord.py:5-20 | `parse_ids`: no duplicates; empty or missing text gives no ids; the ids are the values of the runs of 5 to 4300 digits, each at its first occurrence in the text |
| Mentions.ParseIdsSound | src/albionbot/utils/discord.py:6-12 | every id returned is the value of a maximal run of at least 5 digits |
| Mentions.ParseIdsComplete | src/albionbot/utils/discord.py:6-12 | the value of every maximal run of at least 5 digits is returned |
| Mentions.RunValueIsInt | src/albionbot/utils/discord.py:8-12 | `int(run)` on a run of digits is its decimal value, and fails beyond 4300 digits, so such a run gives no id |
| Mentions.DigitRunsConcat | src/albionbot/utils/discord.py:6 | cutting the text where no run of digits is split cuts the runs found the same way |
| Mentions.ParseIdsSplit | src/albionbot/utils/discord.py:5-20 | ids come in text order: the ids of `x + y` are those of `x`, then the new ids of `y`, so "20000 10000" gives `[20000, 10000]` |
| Mentions.Mention | src/albionbot/utils/discord.py:22-23 | `<@id>`, with the id in decimal |
| Mentions.MentionRoundTrip | src/albionbot/utils/discord.py:5-23 | `parse_ids` of the mention of an id of 5 to 4300 digits is exactly that id |
| Mentions.ChannelMention | src/albionbot/utils/discord.py:25-26 | `<#id>` for a truthy id, `*non défini*` exactly when the id is missing or 0 |
| Mentions.HasAnyRole | src/albionbot/utils/discord.py:28-32 | true for an empty requirement, otherwise exactly when some required id is among the member's roles |
| PyInt.ParseInt | src/albionbot/modules/raids.py:180-181 | `int(text)`: accepts only text that strips to something non-empty, with `_` only between digits and at most 4300 digits; a negative result comes from a leading `-` |
| PyInt.ParseIntToString | src/albionbot/modules/raids.py:648 | every integer written in decimal parses back to itself |
| PyInt.ParseDigits | src/albionbot/modules/raids.py:181 | a run of digits parses to its decimal value |
| PyInt.ParseNegative | src/albionbot/modules/raids.py:181-183 | `-` and a run of digits parses to the negated value, which the slots check then refuses |
| PyInt.ParseBlank | src/albionbot/modules/raids.py:180-185 | blank text is not a number |
| PyInt.ParseUnderscore | src/albionbot/modules/raids.py:181 | a single `_` between digits is accepted and ignored, as Python's `int` does |
| PyInt.ParseTooManyDigits | src/albionbot/modules/raids.py:181 | a run of more than 4300 digits is refused, as Python's default limit on integer string conversion does |
| StoreState.SetBalance | src/albionbot/storage/store.py:420-426 | reading back gives the value set; every other guild/user balance and every other part of the store is unchanged |
| StoreState.EmptyBalances | src/albionbot/storage/store.py:415-418 | an example: in the empty store every balance reads 0, the default of `get_balance` |
| StoreState.LogIndex | src/albionbot/storage/store.py:432-434 | the position of the guild's log, the first with that guild, or none exactly when no log has it |
| StoreState.Bounded | src/albionbot/storage/store.py:435-436 | `list[-limit:]`: the last `limit` entries for a positive limit, the whole list for 0, and the list minus its first `-limit` entries for a negative limit |
| StoreState.AppendAction | src/albionbot/storage/store.py:428-436 | the guild's log becomes the bounded old log plus the action; every other guild's log and the rest of the store are unchanged; validity is kept |
| StoreState.LogIndexAfterAppend | src/albionbot/storage/store.py:432-433 | creating a guild's log makes it found at the end and moves no other guild's log |
| StoreState.LastUndoableIndex | src/albionbot/storage/store.py:441-445 | the last position whose action has that actor and is not undone, or none exactly when there is no such position |
| StoreState.FindLastAction | src/albionbot/storage/store.py:438-445 | the latest-appended action of that actor not yet undone, or None exactly when there is none |
| StoreState.LocateAction | src/albionbot/storage/store.py:451-453 | the first action with that id, scanning guild logs in insertion order, or none when no action has it |
| StoreState.MarkActionUndone | src/albionbot/storage/store.py:447-456 | only the first action with that id is marked undone at `at`; nothing changes when no action has the id |
| StoreState.MarkedIsNotUndoable | src/albionbot/storage/store.py:443-456 | the action just marked is never again the one the last-undoable lookup returns |
| StoreState.MarkKeepsValid | src/albionbot/storage/store.py:447-456 | marking an action keeps the store valid |
| StoreState.SetPermissionRoleIds | src/albionbot/storage/store.py:346-352 | reading back gives the list set; every other guild/key pair and the rest of the store are unchanged |
| StoreState.TicketIndexByChannel | src/albionbot/storage/store.py:459-463 | the first ticket with that channel, or none exactly when no ticket has it |
| StoreState.TicketGetByChannel | src/albionbot/storage/store.py:459-463 | a stored record of that channel, or None exactly when there is none |
| StoreState.PutTicket | src/albionbot/storage/store.py:481 | `tickets[id] = ticket`: the record is stored; only a record with the same id is replaced |
| StoreState.TicketGetOrCreate | src/albionbot/storage/store.py:465-483 | an existing record returns with only a missing owner filled in; otherwise a new open record `"{channel}-{now}"` is stored with an event list if it had none; a new record is stored as `tickets[id] = t`, so every other ticket is kept; either way the channel lookup then finds the returned record |
| StoreState.GetOrCreateIdempotent | src/albionbot/storage/store.py:465-470 | calling it again for the same channel and owner returns the same record and changes nothing |
| StoreState.PutTicketKeepsDistinct | src/albionbot/storage/store.py:481 | storing by id keeps ticket ids distinct |
| StoreState.TicketAppendSnapshot | src/albionbot/storage/store.py:485-491 | the ticket's event list (empty when missing) gains the snapshot at its end; every other list is unchanged |
| StoreState.TicketFinalize | src/albionbot/storage/store.py:493-504 | None and no change exactly when no ticket has the channel; otherwise that record gets the status, `closed_at = now` and the three transcripts, and nothing else changes |
| Bank.EnumerateShares | src/albionbot/modules/bank.py:65-68 | keys are exactly the listed ids; each value is `sign·base` or `sign·(base+1)` |
| Bank.EnumerateSharesAt | src/albionbot/modules/bank.py:66-68 | the id at sorted position `i` gets `sign·(base + 1)` if `i < rem`, else `sign·base` |
| Bank.ComputeSplitDeltas | src/albionbot/modules/bank.py:59-69 | `{}` for no ids; otherwise the keys are exactly the ids and each magnitude is `total // n` or one more |
| Bank.SplitRank | src/albionbot/modules/bank.py:63-68 | the `+1` goes exactly to the first `total % n` ids in ascending order |
| Bank.SplitFavoursSmallerIds | src/albionbot/modules/bank.py:66-68 | a smaller id never gets less than a larger one |
| Bank.SplitSum | src/albionbot/modules/bank.py:59-69 | for distinct ids the deltas sum to `sign·total`, or 0 for no ids |
| Bank.SplitSign | src/albionbot/modules/bank.py:59-69 | for `total ≥ 0` every delta has the sign of `sign` or is zero |
| Bank.SplitExample | src/albionbot/modules/bank.py:59-69 | a worked example of the split rule: `(10, [1,2,3], +1)` gives `{1:4, 2:3, 3:3}` |
| Bank.FlatDeltas | src/albionbot/modules/bank.py:126 | keys are exactly the ids; each gets the same amount |
| Bank.ChangeDeltas | src/albionbot/modules/bank.py:121-126 | keys are exactly the targets; in flat mode each gets `+amount` for `add` and `−amount` for `remove` |
| Bank.AddRemoveOpposite | src/albionbot/modules/bank.py:121-126 | `add` and `remove`, and `add_split` and `remove_split`, give each target opposite deltas |
| Bank.FirstShortfallIndex | src/albionbot/modules/bank.py:74-77 | the first position whose balance plus delta is negative, all earlier ones covered, or none when all are covered |
| Bank.FirstShortfall | src/albionbot/modules/bank.py:74-77 | the smallest target id whose balance plus delta is negative, every smaller target covered, or None exactly when every target is covered |
| Bank.CanApplyDeltas | src/albionbot/modules/bank.py:71-78 | always fine when negatives are allowed; otherwise refused exactly when some target would end below zero, naming the first such user in ascending id order with their balance and delta |
| Bank.ApplyKeys | src/albionbot/modules/bank.py:81-83 | the listed users' balances move by their deltas; nothing else changes |
| Bank.ApplyDeltas | src/albionbot/modules/bank.py:80-83 | every balance of the guild moves by exactly its delta (0 when absent); other guilds and the rest of the store are unchanged |
| Bank.Negate | src/albionbot/modules/bank.py:240 | the reverse has the same keys and the negated values |
| Bank.ApplyThenReverse | src/albionbot/modules/bank.py:240-245 | applying the deltas and then their reverse restores every balance |
| Bank.BankChange | src/albionbot/modules/bank.py:106-145 | refused without change for a non-manager, a negative amount, no targets, or a failed funds check; otherwise balances move by the deltas, the action is appended to the guild's bounded log, and nothing else changes |
| Bank.BankUndo | src/albionbot/modules/bank.py:222-249 | refused for a non-manager, when there is nothing to undo, when the age exceeds 900 seconds (exactly 900 is allowed), or when the reverse fails the funds check; otherwise the reverse is applied, and exactly two log places are marked undone at `now`: the action found and the first action anywhere bearing its id; every other log entry, list length and guild key, and every store part other than balances and logs, is unchanged |
| Bank.UndoCommit | src/albionbot/modules/bank.py:245-248 | the reverse of the action at position `k` is applied; that action and the first action bearing its id are marked undone and no other log entry changes; the rest of the store is unchanged |
| Bank.SecondUndo | src/albionbot/modules/bank.py:228-248 | when the guild's action ids are distinct, marking the places a successful undo of the actor's latest undoable entry marks changes the guild's list only at that entry, and the actor's latest undoable action afterwards is the latest one before it |
| Bank.MarkActionUndoneKeeps | src/albionbot/modules/bank.py:246-248 | re-marking by id an action already marked leaves it, the log shapes and the balances as they are |
| Bank.ChangeThenUndo | src/albionbot/modules/bank.py:128-249 | a change followed within the window by the actor's undo succeeds and restores every balance, when the funds check cannot block the reverse |
| Bank.BoundedKeepsLast | src/albionbot/storage/store.py:434-436 | bounding a non-empty log with a non-negative limit keeps its last action |
| Roster.RoleDef | src/albionbot/modules/raids.py:36-37 | `role_map(tpl).get(key)`: a role with that key from the template, the last one in order when keys repeat, or None exactly when no role has the key |
| Roster.LastRoleIndex | src/albionbot/modules/raids.py:36-37 | the last role with that key, or none exactly when no role has it |
| Roster.RoleKeys | src/albionbot/modules/raids.py:62 | `role_map(tpl).keys()`: distinct, and exactly the keys the map resolves |
| Roster.Count | src/albionbot/modules/raids.py:39-40 | at most the number of sign-ups, and 0 exactly when nobody holds that role and status |
| Roster.CountUpdate | src/albionbot/modules/raids.py:39-40 | overwriting one sign-up changes the count by exactly its own contribution |
| Roster.WaitFilter | src/albionbot/modules/raids.py:43 | exactly the waiting sign-ups of the role |
| Roster.ListWait | src/albionbot/modules/raids.py:42-45 | the waiting sign-ups of the role sorted by `joined_at`, a permutation of the filtered list |
| Roster.InsertByJoined | src/albionbot/modules/raids.py:44 | inserting into a sorted list keeps it sorted and adds exactly that element |
| Roster.SortByJoined | src/albionbot/modules/raids.py:44 | sorted by `joined_at` and a permutation of its input |
| Roster.FirstPresent | src/albionbot/modules/raids.py:53-57 | the first listed user who is not absent, or None exactly when all are absent |
| Roster.EarliestIndex | src/albionbot/modules/raids.py:53-57 | the non-absent waiter with the smallest `joined_at`, the first such in sign-up order on ties |
| Roster.SortedPickIsEarliest | src/albionbot/modules/raids.py:44-57 | the first non-absent entry of the sorted waitlist is the earliest non-absent waiter |
| Roster.Pick | src/albionbot/modules/raids.py:53-57 | an eligible waiter of the role, or None exactly when there is none |
| Roster.Promote | src/albionbot/modules/raids.py:47-58 | None exactly for an unknown role, a full main roster, or no eligible waiter; otherwise one eligible waiter goes from `wait` to `main` and nothing else changes |
| Roster.PromoteChoosesEarliest | src/albionbot/modules/raids.py:42-58 | the promoted waiter is the eligible one with the smallest `joined_at` |
| Roster.PromoteKeepsOtherRole | src/albionbot/modules/raids.py:47-58 | promoting for one role leaves the main count and the eligible waiters of every other role as they were |
| Roster.PromoteAll | src/albionbot/modules/raids.py:63-64 | the `while promote(...)` loop ends when no promotion is possible for the key; it terminates because each promotion lowers the number of waiters |
| Roster.PromoteAllEffect | src/albionbot/modules/raids.py:63-64 | the loop only promotes eligible waiters of known roles, earliest first, never above the role's slots, and leaves every other role's counts alone |
| Roster.PromoteStep | src/albionbot/modules/raids.py:47-58 | one promotion: the role is known and stays within its slots, the promoted waiter was eligible and joined no later than any eligible waiter left |
| Roster.RecomputeKeysEffect | src/albionbot/modules/raids.py:62-64 | the pass over the keys only promotes eligible waiters, earliest first, never raising a template role above the larger of its count before and its slots |
| Roster.RecomputeKeysSaturates | src/albionbot/modules/raids.py:62-64 | after the pass over the keys, each key has a full main roster or no eligible waiter |
| Roster.Recompute | src/albionbot/modules/raids.py:60-64 | afterwards no template role has a free main place while an eligible waiter exists; the change only promotes waiters, never demoting, moving roles or adding or removing users; each promoted waiter was not absent and held a template role; no role ends with more main sign-ups than its slots or its count before; a promoted waiter joined no later than any eligible waiter of that role left behind |
| Roster.PromotedKeepsUsers | src/albionbot/modules/raids.py:47-64 | promotion keeps the users, in the same positions |
| Roster.SignupIndex | src/albionbot/modules/raids.py:634 | the position of the user's sign-up, the first such, or none exactly when they have none |
| Roster.GetSignup | src/albionbot/modules/raids.py:634 | `signups.get(uid)`: the user's sign-up, or None exactly when they have none |
| Roster.PutSignup | src/albionbot/modules/raids.py:685 | `signups[uid] = s`: reading back gives `s`, every other user's sign-up is unchanged, and a new user is added at the end |
| Roster.RemoveSignup | src/albionbot/modules/raids.py:747 | `del signups[uid]`: exactly the other users' sign-ups remain, unchanged when the user had none |
| Roster.RemoveKeepsOthers | src/albionbot/modules/raids.py:775 | deleting one user's sign-up does not change another user's |
| Roster.RemoveKeepsUnique | src/albionbot/modules/raids.py:775 | deleting keeps the one-sign-up-per-user property |
| RaidActions.SelectRole | src/albionbot/modules/raids.py:600-637 | each refusal occurs exactly in its own case, in the source's order of checks (no raid, closed, no template, raid access roles, unknown role, Raid Leader role, the role's required roles, locked as leader); success exactly when every check passes, and changes only `absent`, removing the user |
| RaidActions.ParseIp | src/albionbot/modules/raids.py:646-653 | invalid exactly when `int` fails, out of range exactly outside 0–2500, and otherwise the parsed power |
| RaidActions.ParseIpRoundTrip | src/albionbot/modules/raids.py:646-653 | every power from 0 to 2500 typed in decimal is accepted as itself |
| RaidActions.FinalizeJoin | src/albionbot/modules/raids.py:655-689 | each refusal occurs exactly in its own case (no raid, no template, closed, unknown role, Raid Leader role, user locked as leader), and the recording succeeds exactly when none of them applies; on success the status is main exactly when the role's main count before the write is below its slots, and the late temp-role assignment is asked exactly when preparation ran but the ping did not |
| RaidActions.FinalizeJoinEffect | src/albionbot/modules/raids.py:682-686 | the user's sign-up now has the role, the power and `joined_at = now`, and it stays main if it was placed main; every other user is kept or promoted from wait; the promotions from the recorded sign-ups promote only eligible waiters, earliest first, within each role's slots, until no role has a free place and an eligible waiter; nothing but the sign-ups changes |
| RaidActions.Join | src/albionbot/modules/raids.py:600-699 | choosing a role, the optional power prompt, and recording: a refusal of the role choice is reported as is with the raid unchanged; then a bad power reports its own error; then the join succeeds exactly when sign-ups are still open at the recording time (the power's submission time when a power was asked), and otherwise reports the closed registration with only the user's absence removed; success records the role, that time and the parsed power (none when not asked) for the user |
| RaidActions.FinalizeJoinKeepsWellFormed | src/albionbot/modules/raids.py:682-686 | recording a non-absent user keeps one sign-up per user, nobody both signed up and absent |
| RaidActions.JoinKeepsWellFormed | src/albionbot/modules/raids.py:600-699 | every outcome of a join keeps the raid well formed; success leaves the user signed up and not absent |
| RaidActions.ToggleAbsent | src/albionbot/modules/raids.py:721-752 | each refusal occurs exactly in its own case (no raid, no template, after mass-up, the leader); an absent user is only un-marked; otherwise the user is marked absent, their sign-up removed, and promotions recomputed with every guarantee of `Roster.Recompute` |
| RaidActions.ToggleAbsentKeepsOthers | src/albionbot/modules/raids.py:740-750 | every other user keeps their sign-up, or has it promoted from `wait` to `main`, and gains none |
| RaidActions.ToggleAbsentKeepsWellFormed | src/albionbot/modules/raids.py:733-750 | the toggle keeps nobody both signed up and absent |
| RaidActions.AbsentTwice | src/albionbot/modules/raids.py:740-750 | marking absent then toggling again leaves the user neither absent nor signed up |
| RaidActions.Leave | src/albionbot/modules/raids.py:754-789 | the same refusals as the absent toggle; the user ends neither signed up nor absent; "changed" exactly when one of the two was removed; no change otherwise, and promotions recomputed with every guarantee of `Roster.Recompute` when changed |
| RaidActions.LeaveKeepsOthers | src/albionbot/modules/raids.py:767-783 | every other user keeps their sign-up, or has it promoted from `wait` to `main`, and gains none |
| RaidActions.LeaveKeepsWellFormed | src/albionbot/modules/raids.py:767-783 | leaving keeps the raid well formed |
| RaidActions.ToggleNotify | src/albionbot/modules/raids.py:701-719 | refused for no raid or after mass-up, and succeeds exactly otherwise; on success it flips only the user's DM subscription and reports whether it is now on |
| RaidActions.NotifyTwice | src/albionbot/modules/raids.py:711-717 | toggling notifications twice restores the raid |
| Scheduler.RaidStatus | src/albionbot/modules/raids.py:66-71 | CLOSED exactly when cleaned up, PINGED exactly when pinged and not cleaned up, OPEN otherwise |
| Scheduler.DisabledButtons | src/albionbot/modules/raids.py:326-333 | the action buttons are disabled only when joining is; joining alone is disabled exactly when the start time has passed before the ping and cleanup |
| Scheduler.Tick | src/albionbot/modules/raids.py:938-992 | a cleaned-up raid is skipped with no effect; a tick changes only the four phase flags, the temporary role id and the last-present list; the role id changes only when temporary roles are handed out and the list only when the voice report runs |
| Scheduler.PrepareTempRole | src/albionbot/modules/raids.py:364-377 | only the temporary role id changes; it changes only with a reachable text channel and no existing stored role, to the newly created role; a created role is always stored |
| Scheduler.Record | src/albionbot/modules/raids.py:945-990 | the stored raid after the flag steps: exactly the new flags, and the role id and the present list change only when their step ran |
| Scheduler.TickRecords | src/albionbot/modules/raids.py:364-377 | after a tick the role id is the created role exactly when preparation ran with a reachable channel and no existing role, and the present list is the present expected users exactly when the voice report ran with a reachable channel |
| Scheduler.FlagTickFlags | src/albionbot/modules/raids.py:940-990 | each flag after a tick: prep when due and not pinged, ping from the start time, voice check from start plus the delay, cleanup from start plus cleanup minutes, none reset |
| Scheduler.TickFlags | src/albionbot/modules/raids.py:940-990 | the same rules stated on the raid record |
| Scheduler.TickMonotone | src/albionbot/modules/raids.py:938-992 | no flag is reset and the status never goes back |
| Scheduler.TickOrder | src/albionbot/modules/raids.py:957-990 | with a non-negative cleanup delay, a tick that cleans up has pinged; with a non-negative prep lead, a tick that pings has prepared |
| Scheduler.FlagTickEvents | src/albionbot/modules/raids.py:945-991 | each side effect runs exactly when its flag goes from unset to set |
| Scheduler.TickEvents | src/albionbot/modules/raids.py:945-991 | the same, stated on the raid record |
| Scheduler.TickTwice | src/albionbot/modules/raids.py:938-992 | a second tick at the same time changes nothing, whatever the platform answers, and can only refresh the message |
| Scheduler.Expected | src/albionbot/modules/raids.py:500 | exactly the signed-up users who are not absent |
| Scheduler.VoiceAttendance | src/albionbot/modules/raids.py:500-508 | the three lists of the report, each sorted ascending without repeats |
| Scheduler.AttendancePartition | src/albionbot/modules/raids.py:500-508 | with a voice channel: present-expected is expected ∩ voice, present-unexpected is voice − expected, missing is expected − voice; without one: everyone expected counts as present |
| Scheduler.RecordVoiceReport | src/albionbot/modules/raids.py:485-510 | nothing changes when the text channel is unset or unreachable; otherwise only the last-present list changes, to the present expected users |
| Loot.Clamp | src/albionbot/modules/raids.py:303 | `max(lo, min(hi, x))`: within the bounds when they are ordered, `x` itself inside them, `lo` when the bounds cross |
| Loot.RoundHalfEven | src/albionbot/modules/raids.py:319 | Python `round` of `a/b`: within half a unit, halves to the even neighbour |
| Loot.BasePlayers | src/albionbot/modules/raids.py:304 | the players other than the scout, in order |
| Loot.EveryoneGets | src/albionbot/modules/raids.py:316-317 | every base player, and only they, gets the share |
| Loot.ComputeLootSplit | src/albionbot/modules/raids.py:301-321 | the scout's pay is the clamped raw cut when a scout is set and 0 otherwise; both pools are `max(0, …)` of their subtraction, hence non-negative; `post_maps ≤ post_scout` for a non-negative maps cost; the payout keys are exactly the base players |
| Loot.NegativeMapsCostAdds | src/albionbot/modules/raids.py:306 | a negative maps cost makes `post_maps` exceed `post_scout` |
| Loot.ScoutNotPaidOut | src/albionbot/modules/raids.py:304-320 | the scout is never a key of the payouts |
| Loot.NoPlayersNoPayout | src/albionbot/modules/raids.py:309-310 | with no base players the share is 0 and nothing is paid |
| Loot.EvenSplit | src/albionbot/modules/raids.py:314-317 | without the leader among the base players, everyone gets the same share, which is `post_maps // n`: `n·share ≤ post_maps < n·(share+1)`; the payouts sum to at most `post_maps` |
| Loot.LeaderSplit | src/albionbot/modules/raids.py:312-320 | with the leader among them, the share is the floor of `post_maps` over the weighted head count `n + bonus`; the leader gets `round(share·(1+bonus))`, at least the share, the others exactly the share, and the payouts sum to at most `post_maps` |
| CompSpec.SplitAt | src/albionbot/modules/raids.py:168 | cutting at separators: one piece more than separators, no separator in a piece, the pieces joined give the text without separators |
| CompSpec.SpecLines | src/albionbot/modules/raids.py:168 | `splitlines`, stripped, blank lines dropped: no line is empty |
| CompSpec.Fields | src/albionbot/modules/raids.py:173 | one field more than there are `;` or `\|` separators |
| CompSpec.Underscore | src/albionbot/modules/raids.py:221-222 | runs of characters outside `[a-z0-9]` become one `_`: only key characters, no two `_` in a row, empty exactly for empty text |
| CompSpec.TrimUnderscores | src/albionbot/modules/raids.py:222 | `strip("_")`: no `_` at either end, keeping the key shape |
| CompSpec.Slug | src/albionbot/modules/raids.py:219-222 | the default key is always a slug: non-empty, `[a-z0-9_]`, no `_` at the ends, none doubled |
| CompSpec.SlugOfSlug | src/albionbot/modules/raids.py:219-222 | a label that is already a slug is its own key |
| CompSpec.SlugIdempotent | src/albionbot/modules/raids.py:219-222 | deriving a key from a key gives it back |
| CompSpec.SlugFallback | src/albionbot/modules/raids.py:222 | a label without an ASCII letter or digit gets the key `role` |
| CompSpec.SuffixedInjective | src/albionbot/modules/raids.py:227 | `base_n` differs for different `n` |
| CompSpec.FreshSuffix | src/albionbot/modules/raids.py:225-228 | the first suffix from `n` on that is unused, every one before it used |
| CompSpec.FreshKey | src/albionbot/modules/raids.py:224-229 | an unused key: the wanted key when free, otherwise `key_m` for the least free `m ≥ 2` |
| CompSpec.Classify | src/albionbot/modules/raids.py:196-217 | an option read as role ids gets `parse_ids` of its text or of what follows `=`; `key=` gives the stripped rest; an unknown option does not look like an id list |
| CompSpec.ReadOption | src/albionbot/modules/raids.py:193-217 | at most one warning, an unknown option naming the stripped text and changing nothing |
| CompSpec.ApplyOptions | src/albionbot/modules/raids.py:192-217 | the options' warnings are all unknown-option warnings for that line, at most one per option |
| CompSpec.ReadLine | src/albionbot/modules/raids.py:173-222 | skipped exactly when there are fewer than 2 fields or the slots are not a non-negative integer, with the warning for that line; otherwise the label is the first field, the slots parse from the second, and the wanted key is the explicit key or the slug of the label |
| CompSpec.ReadLines | src/albionbot/modules/raids.py:172 | one reading per line, numbered from `first` on |
| CompSpec.AssignKeys | src/albionbot/modules/raids.py:224-237 | the keys given are pairwise distinct and unused before, slots are non-negative, and each line is a role or a skip warning |
| CompSpec.AssignKeysInOrder | src/albionbot/modules/raids.py:171-237 | role `k` is made from the `k`-th role line: its label, slots, `ip` flag and required ids, and the key `FreshKey(wanted, used ∪ keys of roles 0..k−1)`; the warnings are each line's, in line order |
| CompSpec.ParseCompSpec | src/albionbot/modules/raids.py:161-241 | an empty spec gives exactly `([], ["Spec vide."])`; keys are pairwise distinct; slots non-negative; otherwise "Aucun rôle valide." is warned exactly when no role survives, and roles plus skip warnings count the lines |
| CompSpec.ParseCompSpecInOrder | src/albionbot/modules/raids.py:161-241 | for a non-empty spec, role `k` comes from the `k`-th well-formed line, keyed against the earlier roles only; the warnings are each line's in order, then "Aucun rôle valide." when no role is left |
| Templates.DropReserved | src/albionbot/modules/raids.py:911 | exactly the roles whose key is neither `raid_leader` nor `scout`, in order |
| Templates.ShapeRoles | src/albionbot/modules/raids.py:910-916 | other content types unchanged; AvA raid: Raid Leader first, Scout last, and between them exactly the template's unreserved roles |
| Templates.ShapeRolesIdempotent | src/albionbot/modules/raids.py:910-916 | shaping an already shaped role list changes nothing |
| Templates.ShapeRolesKeepsDistinctKeys | src/albionbot/modules/raids.py:910-916 | shaping keeps keys pairwise distinct |
| Templates.SortByName | src/albionbot/modules/raids.py:263 | sorted by lower-cased name and a permutation of its input |
| Templates.SortByNameStable | src/albionbot/modules/raids.py:263 | the sort is stable: for every lower-cased name, the names having it keep their dictionary order |
| Templates.InsertByName | src/albionbot/modules/raids.py:263 | inserting into a sorted list keeps it sorted and adds exactly that name |
| Templates.Starting | src/albionbot/modules/raids.py:266 | exactly the names whose lower case starts with the typed text |
| Templates.Containing | src/albionbot/modules/raids.py:267 | exactly the names whose lower case contains the typed text |
| Templates.Take | src/albionbot/modules/raids.py:265 | `list[:n]`: the first up to `n` entries, the whole list when it is short |
| Templates.SuggestNames | src/albionbot/modules/raids.py:261-274 | at most 25 suggestions |
| Templates.SuggestNamesTyped | src/albionbot/modules/raids.py:262 | the typed text is lower-cased and stripped once: giving the already normalised text gives the same suggestions |
| Templates.MergedMembers | src/albionbot/modules/raids.py:266-273 | the merged list holds exactly the names containing the typed text |
| Templates.SuggestionsMatch | src/albionbot/modules/raids.py:264-274 | every suggestion is a template name, and contains the typed text when that is not blank |
| Templates.SuggestionsDistinct | src/albionbot/modules/raids.py:268-274 | suggestions for typed text have no duplicates |
| Templates.PrefixMatchesFirst | src/albionbot/modules/raids.py:266-273 | prefix matches come before names that only contain the text |
| Templates.BlankSuggestions | src/albionbot/modules/raids.py:263-265 | blank input lists names in name order, each offered name sorting before every name left out, all names when there are at most 25 |
| Templates.SuggestionsComplete | src/albionbot/modules/raids.py:266-274 | when at most 25 names match, every matching name is suggested |

## Left out

- Discord I/O is replaced by values or events. This covers channels, messages, embeds, DMs, modals, role creation and assignment, voice overwrites, the DM wizard's prompts and slash-command registration.
  - The scheduler's side effects are the events of `Scheduler.Tick`.
  - The voice channel's members, the channel's reachability and the member's roles are parameters.
  - `Join` takes the text typed at the item-power prompt as a parameter.
- Message texts are left out, apart from the parser's warnings (`CompSpec.WarningText`) and the funds-check refusal (`Bank.ShortfallMessage`), which other code shows to members.
- The lock and the coroutine interleavings are left out: each locked block is one step. In the code, a member can do something else between choosing a role and answering the power prompt; `Join` runs the two back to back.
- Persistence is left out: JSON load/save and the SQL bank back end. Only the in-memory fallback of the store is modelled.
- Floating point is left out.
  - The scout percentage's `round` is an integer input to `Loot.ComputeLootSplit`.
  - The leader's bonus is an exact rational.
  - `int(x / denom)` and `round` are exact floor and half-even rounding. Binary floats can round differently near a half or at large totals.
  - The money parser (`_parse_money_int`), taxes and the cancelled-map 10% cost are left out; the maps cost is an input.
- `_autocomplete_raid_ids`, the template storing and renaming around the AvA role forcing, the raid creation commands and the loot session dialog are not part of this model. They are presentation and storage around the modelled functions.
- Case and digits are ASCII only. `str.lower`, `\d`, `int()` and `str.isdigit` are modelled on ASCII text; Unicode letters and digits are not. Python's `str.isspace` set is modelled in full.
- PyInt.ParseInt: its own contract states that blank text fails, that a negative result comes from a leading `-`, and the shape and digit limit of what it accepts. The accepted values are stated by `PyInt.ParseDigits`, `PyInt.ParseNegative`, `PyInt.ParseUnderscore` and `PyInt.ParseIntToString`. Non-ASCII digits are not modelled.
- The 4300-digit limit of `int(str)` is the default of `sys.set_int_max_str_digits` from Python 3.11 on; a program that changes the limit, or an older Python without it, is not modelled. `Mentions.Mention` renders any id, since `str(int)` is modelled without the limit.
- Scheduler.Tick: one `TickEnv` gives the platform's answers for a whole tick: whether the text channel is reachable, whether the stored role exists, the role created, and the voice members. The code asks the platform again at each step, and the answers could differ between steps; the model does not cover that.
- CompSpec.Fields: modelled as a split at every `;` or `|` followed by stripping each field. The code uses a regular expression that swallows the spaces around the separators. The two agree on every line, because the line is already stripped and every field read is stripped again.
- CompSpec.SpecLines: the text is cut at every line-break character, so a `\r\n` pair cuts twice where `splitlines` cuts once. The extra piece between the two is empty and is dropped with the blank lines, so the lines agree.
- Loot.ComputeLootSplit: `post_maps ≤ post_scout` is stated only for a non-negative maps cost, because the code does not check the sign (see `Loot.NegativeMapsCostAdds`).
- Templates.SuggestionsDistinct: for blank input the names are stated distinct only when the template names are, as the code does not deduplicate that branch; they are dict keys, hence distinct.
- Dict iteration order of the deltas is ascending user id, which is how every caller builds them. The targets are resolved sorted, and the split walks the sorted ids.
- utils/timeutil.py, config.py, utils/permissions.py, modules/tickets.py, main.py and the ui views are not part of this model. They hold time zones, environment parsing, permission checks that reference undefined names, and presentation.
