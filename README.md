# Area 69 moderation bot — a Dafny model of its command logic

The bot (`main.py`) is a Discord moderation bot. Its commands sit on a MongoDB database with
three collections: AFK records, warnings, and one log channel per guild. This project models
the decisions the bot makes itself. Library calls, database calls and message formatting are
left out.

- **`wrappers.dfy`** (`Wrappers`): `Option` and the identifier types.
- **`text.dfy`** (`Text`): the `startswith` and `lower()` comparisons the bot uses, ASCII only.
- **`pyint.dfy`** (`PyInt`): Python's `int()` on a string. It strips ASCII whitespace, takes an
  optional sign, then digits with single underscores between them; anything else raises.
  `timeout` and `unban` both rely on it. It is proved accepting, sound, and inverse to `str()`.
- **`duration.dfy`** (`Duration`): the `timeout` duration argument.
  - The last character is the unit (`s`, `m`, `h`, `d`).
  - The rest goes through `int()`.
  - The resulting `timedelta` must stay within ±999999999 days; otherwise `OverflowError` escapes
    the command.
- **`afk.dfy`** (`Afk`): the AFK collection as a class `AfkTracker` whose `records` map replaces
  `AFK_COLLECTION`.
  - Covers `set_afk`, `remove_afk`, `is_afk`, the `afk` command and the AFK part of `on_message`.
  - The mention loop is a method proved against the function `AfkMentions`.
  - A nickname rename that Discord refuses (`discord.Forbidden`) is the parameter
    `renameAllowed`.
- **`moderation.dfy`** (`Moderation`): reading the `clear` arguments (clamp and purge filter), and
  resolving the `unban` target.
  - Resolution first tries an integer id, then a case-insensitive search of the ban list.
  - The search is a loop with an early exit, proved against the first-match function `FindBan`.
- **`warnings.dfy`** (`Warnings`): the warnings collection as a class `WarningLog` over a `seq`,
  in insertion order.
  - `warn` appends.
  - `warns` lists at most 100 matches, numbered from 1.
  - Lemmas relate counts across runs of `warn`.
- **`modlog.dfy`** (`ModLog`): the log-channel map of `setlogschannel`, and the gating of
  `send_mod_log`.
  - A log entry is sent only when the guild has a mapping whose channel still resolves.
  - An empty or missing reason becomes "No reason provided".

Behaviours a reader might expect of such a bot, and that this code does not have (the model
follows the code):
- `set_afk` is an upsert, so there is no "already AFK" error.
- An `afk` message from an AFK user does not take them out of AFK. `on_message` clears their
  record (main.py:199-201) before `process_commands` runs the command (main.py:214). The command
  then finds no record and sets AFK again with the new reason (`AfkMessageAlwaysSets`). The
  command's own toggle-off branch (main.py:235-239) is never reached from a message.
- `timeout` accepts zero and negative amounts (`"0m"`, `"-5s"`). It accepts the unit letters
  only in lower case.
- There is no escalation after some number of warnings.
- No command refuses bot or self targets.
- `unban` with an integer argument does not check the id against the ban list.
- The `afk` reason defaults to "No reason given." (main.py:234), so the falsy empty reason is
  unreachable through the command. `AfkEmptyReasonSticks` shows what would happen with one.
- `clear` tests `isinstance(member, int)` against a slot typed as a member. The model keeps that
  branch as written, as `MemberSlot.IntArg`.

The code also differs from its own help text (`COMMAND_INFOS`, main.py:27-67), which the model does
not follow:
- `warn` lists its reason as optional (`[reason]`, main.py:55), but the command refuses a missing
  or empty reason (main.py:375).
- `unban` lists a `[reason]` too (main.py:39), but the command takes the whole rest of the message as
  the user to unban (main.py:284).

## Model

| member | source | states |
|---|---|---|
| PyInt.ParseInt | main.py:323-326 | Python's `int()` on text: strip whitespace, optional sign, digits with single underscores between them; its meaning is stated by the lemmas below |
| PyInt.ParseIntAccepts | main.py:323-326 | whitespace, an optional sign and well-formed digits (underscores only between digits) parse to the signed value of the digits |
| PyInt.ParseIntSound | main.py:323-326 | every accepted string splits into whitespace, sign, well-formed digits and whitespace, and its value is the signed value of those digits |
| PyInt.ParseIntAlphabet | main.py:323-326 | every character of an accepted string is whitespace, a sign, a digit or an underscore |
| PyInt.ParseIntHasDigit | main.py:323-326 | an accepted string contains a digit |
| PyInt.ParseIntRejectsBlank | main.py:323-326 | an empty or all-whitespace string raises |
| PyInt.ParseIntRejectsForeign | main.py:290-292 | any other character makes `int()` raise, so such text is never taken as an id |
| PyInt.ParseShow | main.py:323-326 | `int(str(n)) == n` for every integer |
| Duration.UnitOf | main.py:328-337 | exactly `s`, `m`, `h`, `d` name a unit, and the unit's letter is that character |
| Duration.ParseDuration | main.py:322-337 | parsing succeeds iff the string is non-empty, its last character is a unit and the rest is an integer, and then the result is that integer of that unit |
| Duration.ParseDurationAccepts | main.py:322-335 | an integer string followed by a unit letter parses to that amount of that unit |
| Duration.ParseDurationOfShow | main.py:322-335 | `str(n)` plus a unit letter parses back to n of that unit, for negative n and zero too |
| Duration.ParseDurationRejectsUnit | main.py:336-337 | a last character other than the four unit letters is invalid usage |
| Duration.ParseDurationRejectsBlankAmount | main.py:322-326 | a unit with nothing or only whitespace before it is invalid usage |
| Duration.TimedeltaRepresentable | main.py:328-335 | `timedelta` accepts a number of seconds exactly when its floor in whole days is within ±999999999 |
| Duration.TimeoutCommand | main.py:319-341 | invalid usage iff the member or duration is missing or empty or the duration does not parse; otherwise a suspension of the parsed seconds when `timedelta` can hold it, else an overflow |
| Duration.TimeoutOfShow | main.py:328-341 | `"<n><unit>"` suspends for n times the unit's length in seconds whenever that fits |
| Duration.TimeoutAcceptsZeroAndNegative | main.py:322-335 | `"0m"` suspends for 0 seconds and `"-5s"` for -5 seconds: no positivity check |
| Duration.TimeoutOverflowsPastMaxDays | main.py:334-335 | more than 999999999 days overflows instead of suspending |
| Afk.Renamed | main.py:159-162 | a permitted rename changes only the display name; a refused one changes nothing |
| Afk.AfkNick | main.py:156-158 | the AFK nickname is `"[AFK] " + name` when that fits in 32 characters, and otherwise its first 32 characters exactly; it always starts with `[AFK]` |
| Afk.Truthy | main.py:200-209 | Python truthiness of `is_afk`'s result: a record whose reason is not the empty string |
| Afk.Lookup | main.py:177-179 | `is_afk` yields a reason exactly for users with a record, and it is the stored reason |
| Afk.SetAfkStore | main.py:148-155 | the upsert adds the user's key with the given reason and the display name at that time, and leaves every other record unchanged |
| Afk.RemoveAfkStore | main.py:166-174 | the delete removes exactly the user's key, keeps the other records, and does nothing without a record |
| Afk.RestoredMember | main.py:165-173 | the original nick is restored only when a record exists, the display name starts with `[AFK]` and the rename is permitted; otherwise the member is unchanged |
| Afk.AfkMentions | main.py:207-212 | every notice is for a mentioned, AFK, non-author member with its stored non-empty reason, and there are at most as many as mentions |
| Afk.AfkMentionsComplete | main.py:207-212 | conversely, every mentioned member with a truthy reason who is not the author is reported |
| Afk.AfkMentionsAppend | main.py:207-212 | the notices for two runs of mentions are the notices for each run, in order |
| Afk.AfkMentionsIgnoreAuthor | main.py:199-212 | removing the author's record first does not change the mention notices, because the author is never reported |
| Afk.SetThenRemoveRestoresNick | main.py:147-174 | after `set_afk` then `remove_afk` the display name is the one from before, and the collection is as if the user had never been AFK |
| Afk.AfkToggled | main.py:235-241 | the `afk` command body removes the user's record when `is_afk` is truthy, else stores the reason with the current display name; other users' records are unchanged |
| Afk.AfkTwiceClears | main.py:233-243 | the command body taken alone: from not AFK, two runs with a non-empty first reason leave no record |
| Afk.AfkEmptyReasonSticks | main.py:233-243 | with an empty (falsy) reason a second `afk` overwrites the record instead of removing it |
| Afk.AfkCommandWhileAfkResets | main.py:194-243 | an AFK user sending `afk` is cleared by `on_message` and then set AFK again with the new reason |
| Afk.OnMessageStore | main.py:194-201 | `on_message` deletes the record of a human author whose reason is truthy, and leaves the collection alone otherwise; afterwards the author has no truthy record |
| Afk.AfkMessageAlwaysSets | main.py:194-243 | an `afk` message from a human always ends with exactly the record `set_afk` would store, whatever the collection held before: it never toggles off |
| Afk.AfkTracker.IsAfk | main.py:177-179 | returns the stored reason exactly when the user has a record, and changes nothing |
| Afk.AfkTracker.SetAfk | main.py:147-162 | the collection becomes the upserted map, and the member gets the AFK nickname if the rename is permitted |
| Afk.AfkTracker.RemoveAfk | main.py:165-174 | the collection loses the user's record, and the member is the restored member |
| Afk.AfkTracker.AfkCommand | main.py:233-243 | toggles off with a welcome back when `is_afk` is truthy, else sets AFK with the reason (default "No reason given.") and announces it |
| Afk.AfkTracker.MentionNotices | main.py:207-212 | the loop's notices are exactly `AfkMentions` of the mentions |
| Afk.AfkTracker.OnMessage | main.py:194-212 | the collection becomes `OnMessageStore`; bots change nothing; a returning AFK author is cleared, welcomed back and restored; then mentioned AFK members are reported against the collection as it was before |
| Moderation.ClampAmount | main.py:439-440 | the amount is capped at 100 from above only |
| Moderation.ClearCommand | main.py:430-440 | invalid usage iff there is no amount and no integer in the member slot; otherwise a purge of the clamped amount, taking the member-slot integer as the amount when the amount is missing |
| Moderation.PurgeMatches | main.py:442-445 | the purge `check`: every message without a member, the member's own messages with one, and for an integer left in the slot every message when it is 0 and none otherwise |
| Moderation.ClearFilter | main.py:442-447 | a purge for a member matches exactly that member's messages; one without a member matches every message |
| Moderation.ResolveUnban | main.py:284-298 | empty text is invalid usage; integer text is taken as an id outright; other text resolves to the first ban whose name matches ignoring case, or "user not found" |
| Text.EqualsIgnoringCase | main.py:294 | `a.lower() == b.lower()` holds exactly when the strings have equal length and agree letter by letter after lower-casing; equal strings always match |
| Moderation.FindBan | main.py:293-298 | the result is the first ban entry whose name equals the text ignoring case, and "not found" exactly when none does |
| Moderation.SearchBans | main.py:293-296 | the loop with `break` computes `FindBan` |
| Warnings.Matching | main.py:402-406 | the query yields only stored warnings of the given guild and user, no more than stored |
| Warnings.MatchingAppend | main.py:385-406 | the matches of a longer collection are the old matches followed by the matches among the new documents |
| Warnings.MatchingAll | main.py:402-406 | when every stored warning is for the pair, the query yields all of them in order |
| Warnings.MatchingNone | main.py:402-406 | warnings for other pairs never show up in a pair's list |
| Warnings.WarnsAccumulate | main.py:374-406 | after n warns of one member their list gains exactly those n warnings at the end, and every other pair's list is unchanged |
| Warnings.WarningLog.Warn | main.py:374-385 | without a member or a non-empty reason it is invalid usage and nothing is stored; otherwise exactly the new warning is appended |
| Warnings.WarningLog.FindWarnings | main.py:402-406 | returns the first min(n, 100) of the pair's n matches, in stored order |
| Warnings.WarningLog.ListWarnings | main.py:406-423 | row k is numbered k+1 and holds the k-th match, for the first min(n, 100) matches |
| Warnings.WarningLog.Warns | main.py:398-425 | invalid usage iff there is no member; "no warnings" iff the pair has no match; otherwise a listing of the first min(n, 100) matches, numbered from 1 |
| ModLog.ReasonOrDefault | main.py:135-137 | a non-empty reason is kept; a missing or empty one becomes "No reason provided", so the field is never empty |
| ModLog.LogChannels.SetLogsChannel | main.py:453-460 | without a channel it is invalid usage and the map is unchanged; otherwise the guild's mapping is set to the channel |
| ModLog.LogChannels.SendModLog | main.py:124-141 | an entry is sent iff the guild has a mapping and the mapped channel resolves in the guild, and it carries that channel, the action, the user, the defaulted reason and the moderator |

## Left out

- The Discord library: converters that turn arguments into members and channels, permission decorators, the error handler and `send_invalid_usage`. The model receives arguments already converted, as `Option` values.
- MongoDB I/O is replaced by a map (AFK records, log channels) and a sequence (warnings). The model assumes that a `find` returns documents in insertion order.
- Embeds, message texts, mentions as strings and `delete_after` are left out. Replies are datatypes that carry what the texts say.
- Clocks and time zones are left out: the warning timestamp is a parameter, and the log-embed timestamp is not modelled. `utcnow() + delta` can overflow `datetime` for durations `timedelta` still accepts; that overflow is not modelled.
- The platform calls are not modelled: kick, ban, unban, `member.timeout`, `channel.purge`, `guild.bans()` and the rename itself. The outcome of a rename is the parameter `renameAllowed`; the `Forbidden` of the other calls is not modelled.
- The `kick`, `ban` and `removetimeout` commands are left out. They only forward to platform calls and `send_mod_log`, which are modelled as above.
- Moderation.ResolveUnban: assumes `guild.bans()` can be awaited to give a list, as main.py:288 does. In discord.py 2.x, whose other APIs the bot uses, `Guild.bans()` is an async iterator, and awaiting it would raise `TypeError` before any resolution. The model does not capture that failure.
- `send_mod_log` failing to send (`Forbidden`, network errors) is not modelled.
- The moderator display-name lookup in `warns` ("Unknown Moderator") and the date formatting are left out.
- `Text.Lower` is ASCII only. Python's `str.lower()` on non-ASCII letters is not modelled.
- `PyInt.ParseInt` handles ASCII digits and ASCII whitespace only. Unicode digits and Unicode whitespace, which Python also accepts, and the `int_max_str_digits` limit are not modelled.
- The member object the bot holds is not refreshed after a nickname edit; the model returns the updated member value instead.
- Concurrency between event handlers, `on_ready`, the `help` command and startup are left out.
