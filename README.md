# VolunteerPunish: the punishment ledger and the daily-quota engine

VolunteerPunish is a Bukkit plugin. It lets trusted players ("volunteers") ban and mute
other players, within a daily quota set by their volunteer group. This project is a
sequential Dafny model of the plugin's core, with the properties of that core proved.
The core consists of:

- **The two tables of `DatabaseManager`** (`database.dfy`, module `Storage`).
  - The volunteers table is keyed by account and maps each account to its `Volunteer` row.
  - The punishments table is an append-only ledger of `Punishment` records.
  - The class `DatabaseManager` holds both tables, plus the id the next inserted record gets.
  - Each SQL statement the plugin issues becomes a method, with the new tables stated in
    its contract.
  - A failing statement is a `fault` flag. The plugin logs such a failure and carries on, so
    a fault gives an empty or negative answer, or leaves the tables as they were. The one
    exception is the history read: a failure part way through leaves the rows read so far,
    and those are returned.
- **The records** (`punishment.dfy`, `volunteer.dfy`).
  - Records are datatypes, and a setter is a field update.
  - A record is *permanent* when it has no expiry. Its duration does not decide this.
  - A record is *enforced* at an instant when it is active and is either permanent or
    expires strictly after that instant.
- **The quota engine of `VolunteerPunish`** (`plugin.dfy`, module `Plugin`).
  - The quota check and the counter increment for bans and mutes.
  - The deactivation step of unban and unmute.
  - The arithmetic of the daily reset timer.
- **The `/vp` command** (`vp_command.dfy`, module `VpCommands`).
  - Duration parsing and the reason argument.
  - How a new record's expiry is computed.
  - The issuance protocol: checks, then save the record, then charge the quota, then enforce.
  - The lifting protocol: save a marker record, then deactivate.
  - Tab completion and the duration options offered.
- **The admin commands** (`set_id_command.dfy`, `remove_id_command.dfy`, `group_command.dfy`).
  Each is a guarded transition on the volunteers table.
- **The join listener** (`join_listener.dfy`, module `JoinListener`).
  - Selecting the governing ban or mute from a joining player's history.
  - The kick text and the duration text.
  - The placeholder substitution of notification templates.
- **Supporting modules.**
  - `text.dfy` (module `Text`): the Java string operations the core relies on.
  - `context.dfy` (module `Context`): the configuration, the command sender and the player
    directory, as plain values.

Modelling conventions:

- Time is an integer `now` in milliseconds since the epoch, passed in.
- The reset timer takes the current local time of day in nanoseconds.
- Integers are unbounded. The expiry of a new record, `now + duration * 1000`, is computed
  in 64-bit arithmetic, with explicit wrap-around, exactly as the command stores it (see
  Findings). The lemmas about how long an issued record is enforced require that the
  intended expiry fits in a `long`; a separate lemma states what happens when it does not.

## Model

| member | source | states |
|---|---|---|
| Punishments.KindOf | src/main/java/cn/popcraft/volunteerpunish/database/DatabaseManager.java:318 | reading a kind back by name yields only a kind whose name is that text |
| Punishments.KindNameRoundTrip | src/main/java/cn/popcraft/volunteerpunish/database/DatabaseManager.java:377 | storing a kind by `name()` and reading it back with `valueOf` gives the same kind |
| Punishments.NewPunishment | src/main/java/cn/popcraft/volunteerpunish/model/Punishment.java:13-21 | a new record is active, has id 0 until storage assigns one, and carries exactly the fields set |
| Punishments.PermanentEnforcedForever | src/main/java/cn/popcraft/volunteerpunish/model/Punishment.java:20 | an active record without expiry is enforced at every instant |
| Punishments.ExpiredNotEnforced | src/main/java/cn/popcraft/volunteerpunish/database/DatabaseManager.java:338 | a record is not enforced at or after its expiry, whatever its flag |
| Punishments.ZeroLengthRecordNeverEnforced | src/main/java/cn/popcraft/volunteerpunish/command/VpCommand.java:494-501 | a duration-0 record whose expiry equals its issue time is not permanent and is never enforced from then on |
| Volunteers.NewVolunteer | src/main/java/cn/popcraft/volunteerpunish/command/SetIdCommand.java:57-63 | a new row has both counters 0, no reset time, and the given account, id and group |
| Volunteers.WithUsed | src/main/java/cn/popcraft/volunteerpunish/model/Volunteer.java:51-61 | a counter setter stores any integer in that counter only, with no bound check |
| Volunteers.Bump | src/main/java/cn/popcraft/volunteerpunish/VolunteerPunish.java:314-323 | the increment raises the counter of that kind by exactly one and changes no other field |
| Context.FindPlayer | src/main/java/cn/popcraft/volunteerpunish/command/VpCommand.java:248-252 | a name resolves exactly when it maps to an account that has played before |
| Text.ToLower | src/main/java/cn/popcraft/volunteerpunish/command/VpCommand.java:95 | lower-casing keeps the length and maps each character |
| Text.FilterPrefix | src/main/java/cn/popcraft/volunteerpunish/command/VpCommand.java:94-96 | the filter keeps exactly the elements that start with the prefix |
| Text.FilterPrefixAppend | src/main/java/cn/popcraft/volunteerpunish/command/VpCommand.java:94-96 | the filter keeps list order: filtering a concatenation filters each part in turn |
| Text.ParseLong | src/main/java/cn/popcraft/volunteerpunish/command/VpCommand.java:234 | a parsed value is within the 64-bit range and comes from non-empty text |
| Text.ParseLongIntToString | src/main/java/cn/popcraft/volunteerpunish/command/VpCommand.java:154 | printing a long and parsing it back gives the same long |
| Text.DigitsValueOfNatToString | src/main/java/cn/popcraft/volunteerpunish/command/VpCommand.java:154 | the digits printed for a natural number read back as that number |
| Text.SplitOnJoin | src/main/java/cn/popcraft/volunteerpunish/command/VpCommand.java:212 | joining space-free words with spaces and splitting at spaces gives the words back |
| Text.ReplaceAllSkips | src/main/java/cn/popcraft/volunteerpunish/listener/PlayerJoinListener.java:142-147 | text that cannot start an occurrence passes through a replacement unchanged |
| Text.ReplaceAllSplice | src/main/java/cn/popcraft/volunteerpunish/listener/PlayerJoinListener.java:142-147 | a placeholder amid text free of its first character is replaced exactly once |
| Text.ReplaceAllUnchanged | src/main/java/cn/popcraft/volunteerpunish/listener/PlayerJoinListener.java:142-147 | text without the placeholder's first character is left as it is |
| Text.ReplaceAllMismatch | src/main/java/cn/popcraft/volunteerpunish/listener/PlayerJoinListener.java:142-147 | a different placeholder with the same opening character is left in place |
| Storage.ResetAll | src/main/java/cn/popcraft/volunteerpunish/database/DatabaseManager.java:422-426 | every row, and no other, gets both counters 0 and the reset time now, keeping account, group and id |
| Storage.HasEnforcedAppend | src/main/java/cn/popcraft/volunteerpunish/database/DatabaseManager.java:338 | appending a record adds its own enforcement to its target and kind and changes nothing else |
| Storage.Matching | src/main/java/cn/popcraft/volunteerpunish/database/DatabaseManager.java:309 | the target's records are exactly the ledger's records with that target |
| Storage.InsertByIssued | src/main/java/cn/popcraft/volunteerpunish/database/DatabaseManager.java:309 | inserting adds exactly that record: the result is a permutation of the list plus it |
| Storage.InsertByIssuedSorted | src/main/java/cn/popcraft/volunteerpunish/database/DatabaseManager.java:309 | inserting into a newest-first list keeps it newest first |
| Storage.History | src/main/java/cn/popcraft/volunteerpunish/database/DatabaseManager.java:309-325 | the history is sorted by issue time descending and is a permutation of the target's records |
| Storage.HistoryMembers | src/main/java/cn/popcraft/volunteerpunish/database/DatabaseManager.java:309-325 | a record is in the history iff it is in the ledger with that target, active or not |
| Storage.Deactivate | src/main/java/cn/popcraft/volunteerpunish/database/DatabaseManager.java:401 | only the active flag may change, and it is cleared exactly on matching records |
| Storage.Deactivated | src/main/java/cn/popcraft/volunteerpunish/database/DatabaseManager.java:401 | no record is added or removed; only matching active records lose the flag; none of that target and kind is enforced at any instant afterwards |
| Storage.DeactivatedKeepsOthers | src/main/java/cn/popcraft/volunteerpunish/database/DatabaseManager.java:401 | every other target and kind is exactly as enforced as before, at every instant |
| Storage.DatabaseManager.constructor | src/main/java/cn/popcraft/volunteerpunish/database/DatabaseManager.java:155-199 | a fresh database has two empty tables and the next id is 1 |
| Storage.DatabaseManager.GetVolunteerByUuid | src/main/java/cn/popcraft/volunteerpunish/database/DatabaseManager.java:201-226 | the row of that account if it exists; none on a fault |
| Storage.DatabaseManager.GetVolunteerByVolunteerId | src/main/java/cn/popcraft/volunteerpunish/database/DatabaseManager.java:228-253 | some stored row carrying that id, present iff such a row exists; none on a fault |
| Storage.DatabaseManager.SaveVolunteer | src/main/java/cn/popcraft/volunteerpunish/database/DatabaseManager.java:255-287 | an upsert keyed on account: that row is replaced or inserted and nothing else changes |
| Storage.DatabaseManager.RemoveVolunteer | src/main/java/cn/popcraft/volunteerpunish/database/DatabaseManager.java:289-302 | only that account's row is deleted; the ledger is untouched |
| Storage.Delivered | src/main/java/cn/popcraft/volunteerpunish/database/DatabaseManager.java:304-332 | the rows a history read returns are always a prefix of the target's history: all of it without a fault, the rows before the failing one with a fault |
| Storage.DatabaseManager.GetPunishmentsByTargetUuid | src/main/java/cn/popcraft/volunteerpunish/database/DatabaseManager.java:304-332 | the collecting loop returns the target's history, newest first; a fault part way returns the rows read before it |
| Storage.DatabaseManager.IsRestricted | src/main/java/cn/popcraft/volunteerpunish/database/DatabaseManager.java:334-366 | isBanned / isMuted hold iff some record of that target and kind is enforced now; false on a fault |
| Storage.DatabaseManager.SavePunishment | src/main/java/cn/popcraft/volunteerpunish/database/DatabaseManager.java:368-396 | exactly one record, with the given fields and the next id, is appended; nothing on a fault |
| Storage.DatabaseManager.DeactivatePunishments | src/main/java/cn/popcraft/volunteerpunish/database/DatabaseManager.java:398-413 | the ledger becomes its deactivated form; the volunteers table is untouched |
| Storage.DatabaseManager.ResetDailyQuotas | src/main/java/cn/popcraft/volunteerpunish/database/DatabaseManager.java:419-437 | all counters are reset and stamped now; the ledger is untouched |
| Plugin.CheckQuota | src/main/java/cn/popcraft/volunteerpunish/VolunteerPunish.java:247-303 | a grant comes only from a row with that id, a configured group and used < quota; with unique ids such a row always grants; a fault refuses |
| Plugin.IncrementCount | src/main/java/cn/popcraft/volunteerpunish/VolunteerPunish.java:305-353 | one row carrying the id gets +1 on that counter; an unknown id or a fault changes nothing |
| Plugin.ChargedOneUnique | src/main/java/cn/popcraft/volunteerpunish/VolunteerPunish.java:314-323 | with unique ids the charged row is the id's row: +1 on that kind, other counter, group and id kept, ids stay unique |
| Plugin.SharedIdChargesEitherRow | src/main/java/cn/popcraft/volunteerpunish/database/DatabaseManager.java:163 | with a shared id the increment may charge either of two different rows |
| Plugin.Attempt | src/main/java/cn/popcraft/volunteerpunish/command/VpCommand.java:263-288 | an attempt charges the counter exactly when the quota rule passes |
| Plugin.AttemptAll | src/main/java/cn/popcraft/volunteerpunish/command/VpCommand.java:263-288 | a day's attempts never change the row's account, group or id |
| Plugin.AttemptsStayWithinQuota | src/main/java/cn/popcraft/volunteerpunish/VolunteerPunish.java:256-268 | however many attempts are made, a counter never decreases and never climbs past its group's quota |
| Plugin.IssueStepWithinQuota | src/main/java/cn/popcraft/volunteerpunish/VolunteerPunish.java:247-353 | with unique ids, one issuance leaves the issuer's row alone or takes exactly one `Attempt` step on it, so the counter stays between its old value and its ceiling |
| Plugin.UnpunishPlayer | src/main/java/cn/popcraft/volunteerpunish/VolunteerPunish.java:203-245 | all the target's active records of that kind are deactivated, so none is enforced at any instant |
| Plugin.ResolveTimezone | src/main/java/cn/popcraft/volunteerpunish/VolunteerPunish.java:116-123 | a known zone name is used; any other falls back to UTC |
| Plugin.NextResetDate | src/main/java/cn/popcraft/volunteerpunish/VolunteerPunish.java:131-135 | the branch is always taken, so the next reset date is always tomorrow |
| Plugin.ResetDelayAsWritten | src/main/java/cn/popcraft/volunteerpunish/VolunteerPunish.java:138 | the delay as computed is never positive and no less than minus one day |
| Plugin.ResetDelay | src/main/java/cn/popcraft/volunteerpunish/VolunteerPunish.java:110-113 | the documented delay: whole seconds to the next local midnight, landing within one second before it |
| Plugin.ResetDelayOneDayShort | src/main/java/cn/popcraft/volunteerpunish/VolunteerPunish.java:114-140 | the computed delay is exactly one day less than the documented one |
| Plugin.ResetDelayAtOneAm | src/main/java/cn/popcraft/volunteerpunish/VolunteerPunish.java:138 | at 01:00 the computed delay is -3600 where 82800 is meant |
| Plugin.StartQuotaResetTask | src/main/java/cn/popcraft/volunteerpunish/VolunteerPunish.java:87-108 | a timer exists iff daily reset is enabled; it repeats every 1,728,000 ticks and first runs after delay*20 ticks |
| Plugin.ResetsRunAtMidnight | src/main/java/cn/popcraft/volunteerpunish/VolunteerPunish.java:95-107 | with the documented delay every run falls in the last second before a local midnight |
| Plugin.ResetsRunAtStartupTime | src/main/java/cn/popcraft/volunteerpunish/VolunteerPunish.java:95-107 | with the computed delay the runs fall at startup and then every 24 hours after it |
| GroupCommands.QueryOwnGroup | src/main/java/cn/popcraft/volunteerpunish/command/GroupCommand.java:30-50 | the own-group query shows the row's group and, iff the group is configured, both counters against both quotas |
| GroupCommands.Execute | src/main/java/cn/popcraft/volunteerpunish/command/GroupCommand.java:20-117 | each refusal, in order, iff its condition holds; a reassignment changes only the group of a row found by id, to a configured group; with permission, a configured group and a known id the reassignment always happens, and is reported even when the swallowed save fails and the table stays as it was; the group is shown only for a bare `/vp group` |
| GroupCommands.MoveKeepsCounters | src/main/java/cn/popcraft/volunteerpunish/command/GroupCommand.java:95-97 | a move keeps account, id, counters and reset time, every other row, and id uniqueness |
| GroupCommands.TabComplete | src/main/java/cn/popcraft/volunteerpunish/command/GroupCommand.java:120-131 | with the permission, the configured groups starting with the lower-cased third argument; nothing otherwise |
| SetIdCommands.SetIdTable | src/main/java/cn/popcraft/volunteerpunish/command/SetIdCommand.java:54-89 | an existing row changes only its id; a missing one is created in "default" with zero counters; other rows stay |
| SetIdCommands.SetIdCanDuplicate | src/main/java/cn/popcraft/volunteerpunish/command/SetIdCommand.java:85-89 | setting an id another row already uses breaks id uniqueness |
| SetIdCommands.SetIdFreshKeepsUnique | src/main/java/cn/popcraft/volunteerpunish/command/SetIdCommand.java:57-89 | setting an unused id keeps ids unique and rows keyed by account |
| SetIdCommands.Execute | src/main/java/cn/popcraft/volunteerpunish/command/SetIdCommand.java:24-114 | each refusal iff its condition holds; otherwise creation or renaming is reported, and the table changes as the table function says; a failed read recreates the row from scratch; a failed save leaves the table as it was, with success still reported |
| SetIdCommands.TabComplete | src/main/java/cn/popcraft/volunteerpunish/command/SetIdCommand.java:117-129 | player names for the second argument; the example ids "01".."10" with the typed prefix for the third; nothing otherwise |
| RemoveIdCommands.Execute | src/main/java/cn/popcraft/volunteerpunish/command/RemoveIdCommand.java:20-82 | each refusal iff its condition holds; otherwise removal is reported and exactly that account's row is deleted, the ledger staying; a failed delete leaves the row, with removal still reported |
| RemoveIdCommands.RemovedIdNoLongerResolves | src/main/java/cn/popcraft/volunteerpunish/command/RemoveIdCommand.java:59 | with unique ids the removed id no longer resolves and every other id resolves as before |
| RemoveIdCommands.TabComplete | src/main/java/cn/popcraft/volunteerpunish/command/RemoveIdCommand.java:85-91 | player names for the second argument only |
| VpCommands.ParseDuration | src/main/java/cn/popcraft/volunteerpunish/command/VpCommand.java:229-245 | "permanent" in any case gives 0; a positive long gives itself; a non-positive long and non-numbers are rejected, each iff its condition holds |
| VpCommands.ParseDurationOfNumber | src/main/java/cn/popcraft/volunteerpunish/command/VpCommand.java:229-245 | a printed long is accepted as itself when positive and rejected as not positive otherwise |
| VpCommands.ReasonOf | src/main/java/cn/popcraft/volunteerpunish/command/VpCommand.java:212 | there is no reason iff there are at most three arguments |
| VpCommands.ReasonWords | src/main/java/cn/popcraft/volunteerpunish/command/VpCommand.java:212 | splitting the stored reason at spaces gives back the words typed |
| VpCommands.ExpiryFor | src/main/java/cn/popcraft/volunteerpunish/command/VpCommand.java:280-282 | no expiry iff the duration is 0; otherwise the expiry lies after now |
| VpCommands.Wrap64 | src/main/java/cn/popcraft/volunteerpunish/command/VpCommand.java:281 | Java long arithmetic: the result is in the 64-bit range and congruent to the exact value |
| VpCommands.Wrap64InRange | src/main/java/cn/popcraft/volunteerpunish/command/VpCommand.java:281 | a value already in range is left unchanged |
| VpCommands.ExpiryAsWritten | src/main/java/cn/popcraft/volunteerpunish/command/VpCommand.java:280-282 | the expiry as computed in 64-bit arithmetic is absent iff the duration is 0 |
| VpCommands.ExpiryAsWrittenAgrees | src/main/java/cn/popcraft/volunteerpunish/command/VpCommand.java:281 | while nothing overflows, the computed expiry is the intended one |
| VpCommands.ExpiryOverflowExample | src/main/java/cn/popcraft/volunteerpunish/command/VpCommand.java:229-282 | a duration of 10^16 seconds is accepted and its computed expiry lies before the issue time |
| VpCommands.IssuedRecord | src/main/java/cn/popcraft/volunteerpunish/command/VpCommand.java:201-282 | an issued record has the requested kind, target, issuer id, duration, reason and issue time, is permanent iff "permanent" was given, and is issued only when the quota allows and the target is not already punished |
| VpCommands.IssuedRecordLifetime | src/main/java/cn/popcraft/volunteerpunish/command/VpCommand.java:280-282 | when the intended expiry fits in a long, an issued record is enforced exactly until duration seconds after its issue, or forever when permanent |
| VpCommands.IssuedOverflowCutShort | src/main/java/cn/popcraft/volunteerpunish/command/VpCommand.java:280-282 | when the intended expiry does not fit in a long, the stored expiry lies before it, so the record stops being enforced before its intended end |
| VpCommands.IssuedTargetIsPunished | src/main/java/cn/popcraft/volunteerpunish/command/VpCommand.java:280-285 | when the intended expiry fits in a long, once stored, the target counts as punished of that kind at the issue time |
| VpCommands.IssueCommand | src/main/java/cn/popcraft/volunteerpunish/command/VpCommand.java:201-326 | the checks in order; a refusal changes nothing; success appends the record, with the expiry computed in 64-bit arithmetic (unless the save fails), and then charges the issuer's counter by one; with unique ids the sender's counter never drops and never passes its ceiling (the quota, or the counter when already above it) |
| VpCommands.LiftMarker | src/main/java/cn/popcraft/volunteerpunish/command/VpCommand.java:488-501 | only a punished target is lifted; the marker has duration 0, is not permanent and is never enforced |
| VpCommands.LiftLeavesOthers | src/main/java/cn/popcraft/volunteerpunish/command/VpCommand.java:504-507 | lifting one target and kind leaves every other target and kind as enforced as before |
| VpCommands.LiftCommand | src/main/java/cn/popcraft/volunteerpunish/command/VpCommand.java:455-525 | the checks in order; success saves the marker, then deactivates every active record of that kind, so none stays enforced; no counter changes; a failed deactivation is swallowed, the lift is still reported and the target stays punished |
| VpCommands.DurationLabels | src/main/java/cn/popcraft/volunteerpunish/command/VpCommand.java:153-155 | each configured duration is offered as its decimal text, in order |
| VpCommands.ConfiguredDurations | src/main/java/cn/popcraft/volunteerpunish/command/VpCommand.java:146-160 | a group's list is used iff the group is configured and lists at least one duration of that kind |
| VpCommands.DurationOptions | src/main/java/cn/popcraft/volunteerpunish/command/VpCommand.java:134-171 | the defaults for the console and non-volunteers; with unique ids, the group's list when configured and else the defaults |
| VpCommands.ParseLongDigits | src/main/java/cn/popcraft/volunteerpunish/command/VpCommand.java:234 | up to six unsigned digits parse as their value |
| VpCommands.DefaultOptionsAccepted | src/main/java/cn/popcraft/volunteerpunish/command/VpCommand.java:170 | every default option is accepted by the duration parser |
| VpCommands.ConfiguredOptionsAccepted | src/main/java/cn/popcraft/volunteerpunish/command/VpCommand.java:153-155 | every positive configured option parses back to that duration |
| VpCommands.TabComplete | src/main/java/cn/popcraft/volunteerpunish/command/VpCommand.java:89-129 | the sub-commands with the typed prefix, in list order; player names; duration options with the typed prefix, and with unique ids exactly the issuer group's configured list when it has one, else the defaults; the group command's completion; the empty list for every other input |
| JoinListener.FormatDuration | src/main/java/cn/popcraft/volunteerpunish/listener/PlayerJoinListener.java:150-160 | the text is non-empty and ends in a unit |
| JoinListener.FormatDurationTruncates | src/main/java/cn/popcraft/volunteerpunish/listener/PlayerJoinListener.java:150-160 | n whole units of the largest unit not above the duration, with n*unit <= s < (n+1)*unit; minutes below 60, hours below 24 |
| JoinListener.DurationText | src/main/java/cn/popcraft/volunteerpunish/listener/PlayerJoinListener.java:53-56 | "永久" iff the duration is not positive, the formatted duration otherwise |
| JoinListener.ReplaceEachPlain | src/main/java/cn/popcraft/volunteerpunish/listener/PlayerJoinListener.java:142-147 | a template without placeholders is left unchanged by the substitutions |
| JoinListener.ReplaceEachOne | src/main/java/cn/popcraft/volunteerpunish/listener/PlayerJoinListener.java:142-147 | a single placeholder is replaced by its value and nothing else changes |
| JoinListener.Substitutions | src/main/java/cn/popcraft/volunteerpunish/listener/PlayerJoinListener.java:142-147 | five substitutions, each keyed by a well-formed placeholder distinct from the others |
| JoinListener.FormatMessage | src/main/java/cn/popcraft/volunteerpunish/listener/PlayerJoinListener.java:127-148 | a template without placeholders comes back unchanged |
| JoinListener.FormatMessageReason | src/main/java/cn/popcraft/volunteerpunish/listener/PlayerJoinListener.java:146 | `{reason}` shows the reason, or "未指定" when there is none |
| JoinListener.FormatMessagePermanentUnbanTime | src/main/java/cn/popcraft/volunteerpunish/listener/PlayerJoinListener.java:137-140 | `{unban_time}` shows "永久" for a record without expiry |
| JoinListener.FormatMessageDuration | src/main/java/cn/popcraft/volunteerpunish/listener/PlayerJoinListener.java:132-135 | `{duration}` shows the duration text, "永久" when not positive |
| JoinListener.TemplateFor | src/main/java/cn/popcraft/volunteerpunish/listener/PlayerJoinListener.java:128-130 | the template configured under the lower-cased kind name when present, the built-in default template otherwise |
| JoinListener.KickText | src/main/java/cn/popcraft/volunteerpunish/listener/PlayerJoinListener.java:52-61 | the kick text opens with the banned header and ends with the issuer's volunteer id |
| JoinListener.SelectGoverning | src/main/java/cn/popcraft/volunteerpunish/listener/PlayerJoinListener.java:36-45 | nothing is found iff no record is of that kind and enforced; otherwise the first such record |
| JoinListener.FirstSelectedIsNewest | src/main/java/cn/popcraft/volunteerpunish/listener/PlayerJoinListener.java:37-45 | in a newest-first list the first selected record is the most recently issued selected one |
| JoinListener.HistorySelectsIffEnforced | src/main/java/cn/popcraft/volunteerpunish/listener/PlayerJoinListener.java:40 | the history holds a selected record iff isBanned / isMuted would hold at that instant |
| JoinListener.ProveGoverns | src/main/java/cn/popcraft/volunteerpunish/listener/PlayerJoinListener.java:36-45 | the record the scan stops at, in the history or in any prefix of it, is the target's newest enforced record of that kind |
| JoinListener.OnPlayerJoin | src/main/java/cn/popcraft/volunteerpunish/listener/PlayerJoinListener.java:27-94 | kicked iff a delivered row is an enforced ban, and then with the newest enforced ban; else, with notifications on, the newest enforced mute is announced iff a delivered row is an enforced mute; on a complete read exactly iff banned, then iff muted; a read failing before the first row admits |

## Left out

- Connection setup, pooling and SQL dialects are I/O. The tables are modelled only by their
  logical effect.
- Futures and scheduler hand-offs are concurrency plumbing. Each command is one sequential
  method, so the race between the quota check and the increment is not modelled.
- The wall clock is not modelled. Each command reads it once, as `now`, where the source
  reads it several times within the same millisecond or so.
- The reset timer's input is the local time of day. Resolving a zone and days that are not
  86400 seconds long (daylight-saving changes) are not modelled.
- Colour codes, chat messages, titles, the action bar, and the kick and ban/mute calls into
  the server API are presentation. Only the kick text and the notification message are
  kept, before colour translation.
- Player lookup is a map from names to accounts plus the set of accounts that have played
  before. Online-player completion is the `OnlinePlayerNames` answer.
- The permission plugin hook is calls into a foreign API.
- Loading the configuration is not part of this model. The configuration is a value: groups,
  switches, zone name and notification templates.
- The history command, the chat listener and the command dispatch in `BaseCommand` and
  `VpCommand.execute` are presentation or dispatch. Reload and help are the same.
- The volunteer row's auto-increment `id` plays no part in any decision and is not kept.
- Timestamps are stored as integers. The driver's representation of `TIMESTAMP` columns,
  column lengths and opening a database that already holds rows are not modelled.
- SQL leaves the order of records with equal issue times open. The model keeps table order
  among them.
- Group-name completion comes from a hash map. It is a set here, and its order is not modelled.
- The plugin is always enabled while commands run, so the `isPluginEnabled` guards are not
  modelled.
- Case folding and digits are ASCII only. The core compares only ASCII words and numbers.
- Volunteers.WithUsed: counters are unbounded integers. The Java `int` counters would wrap
  after 2^31 - 1 grants, which a daily quota never reaches.
- Plugin.CheckQuota: when two rows share a volunteer id, the row read is unspecified. The
  contract then only promises that a grant comes from some row that passes the rule.
- VpCommands.IssueCommand: its volunteer lookup, punishment test and quota check have no
  read fault, and the charge of the issuer's counter has no fault. Only a failing save of the
  record is modelled.
- VpCommands.LiftCommand: it looks volunteers up and tests the target with no read fault.
  A failing save of the marker and a failing deactivation are modelled.
- VpCommands.IssuedRecordLifetime: the exact enforcement window is stated only when the
  intended expiry fits in a `long`. VpCommands.IssuedOverflowCutShort covers the other case.
- VpCommands.IssuedTargetIsPunished: stated only when the intended expiry fits in a `long`.
  With an overflow the stored expiry can lie before the issue time.
- GroupCommands.Execute: no read fault is modelled on its lookups.
- RemoveIdCommands.Execute: no read fault is modelled on its lookups. SetIdCommands.Execute
  is the one admin command that models a failed read.
- JoinListener.FormatMessage: its general contract covers templates without placeholders.
  Templates with one placeholder are covered by the three placeholder lemmas. Templates with
  several placeholders, and values that themselves contain `{`, are not stated.
- The title and action-bar templates of the mute notification are presentation and are
  left out.

## Findings

| source | as written | input that shows it | evidently intended | confidence | as-written member | corrected member |
|---|---|---|---|---|---|---|
| src/main/java/cn/popcraft/volunteerpunish/VolunteerPunish.java:138 | `Duration.between(now, resetTime.atDate(nextResetDate))` takes the end as a time of day (00:00), so the delay is minus the seconds since midnight, never positive; the scheduler starts the reset at once and then every 24 hours from startup | local time 01:00:00: delay -3600 | the seconds until the next local midnight (82800 at 01:00), as the method's comment says | high (not executed) | Plugin.ResetDelayAsWritten, Plugin.ResetDelayOneDayShort, Plugin.ResetDelayAtOneAm, Plugin.ResetsRunAtStartupTime | Plugin.ResetDelay, Plugin.ResetsRunAtMidnight |
| src/main/java/cn/popcraft/volunteerpunish/command/VpCommand.java:281 | `System.currentTimeMillis() + duration * 1000` in 64-bit arithmetic; the parser accepts any positive long, so the product wraps around | now = 1700000000000, duration 10000000000000000: expiry -8446742373709551616, before the issue time, so the record is never enforced while the issuer's quota is charged | an expiry `duration` seconds after now, or a refusal of durations that overflow | high (not executed) | VpCommands.ExpiryAsWritten, VpCommands.ExpiryOverflowExample, VpCommands.IssuedOverflowCutShort | VpCommands.ExpiryFor, VpCommands.ExpiryAsWrittenAgrees |
