# Moderation and ticket cogs of a Discord bot, in Dafny

This project models the three pieces of logic in the bot that stand on their own:

- **The spam burst detector** of the moderation cog (`ModerationCog.on_message`). The cog keeps one list of message timestamps per user. Each tracked message appends its time. The handler then drops every timestamp before `now - SPAM_WINDOW_SEC`; a timestamp exactly at the cutoff stays. The detector fires when the list holds `SPAM_MAX_MSG` or more entries. A firing deletes the message, grants the guild's spam role, reports to the log channel and empties the user's list. Bots, messages outside a guild, non-members and administrators are never tracked. The lists are keyed by user id alone, so one user's messages in different guilds share one window.
- **The per-guild settings store.** `load_settings` turns the parsed JSON file into `guild id string -> role id` and drops every entry whose value `int()` rejects. `spam_setup` refuses a role that is not strictly below the bot's top role, and otherwise overwrites one key and saves the file. `_get_spam_role` treats a missing entry, a stored 0 and a role the guild no longer has as unset.
- **The ticket command's pure parts.** These are the channel name (lowercase, spaces to `-`, keep alphanumerics, `-` and `_`, prefix `ticket-`, cut to 90 characters) and the permission overwrites (hide from the default role; allow the requester and, if a `Staff` role exists, that role).

Modules, one per concern:

- `Wrappers`: `Option` and `Result`.
- `Seqs`: order-preserving subsequences.
- `PyInt`: Python's `str()` and `int()` on ASCII decimal strings, with the round trip `int(str(i)) == i`.
- `Settings`: the JSON value, `load_settings` (a loop proved equal to a specification function), what `save_settings` writes, the key of a guild, `_get_spam_role`, and the hierarchy guard and store of `spam_setup`.
- `SpamWindow`: the window prune, one step of the detector, and a replay of one user's messages, as pure functions with their lemmas.
- `Moderation`: the class `ModerationCog` with the fields `msgTimes` (`_msg_times`), `settings` and `file` (the settings file as last written). Its methods `OnMessage` and `SpamSetup` change those fields. It also holds `_apply_spam_role` and the try/except of the handler as functions of the platform's answers.
- `Ticket`: the channel name and the overwrite map.

Calls into the platform are replaced by their outcomes, which are parameters: `Effects` says whether deleting succeeds, which roles the guild has, whether granting succeeds and whether each log report raises. `time.time()` is the `real` parameter `now`. The file's contents are the `Source` parameter of the constructor.

Two behaviours of the code as written are kept:

- When the detector fires and the failure report to the log channel itself raises (cogs/moderation.py:159-163 is outside any `try`), the exception leaves the handler before the reset at line 166. The user's list is then not emptied, and `OnMessage` returns `Fired(..., escaped := true)` with the window kept. `SpamWindow.Step`, `Replay` and the lemmas about them describe the path where the handler completes.
- When the grant succeeds but the success report raises, the `except` branch reports a failed grant although the role was granted (`LogFailed`).

Three choices of the code that the model keeps:

- The windows are keyed per user, not per (guild, user).
- There is no check at grant time that the role is below the bot's, and no "already holds the role" shortcut. Both are left to the platform's `add_roles`.
- Role ids are integers.

## Model

| member | source | states |
|---|---|---|
| `Settings.LoadSettings` | cogs/moderation.py:19-37 | The loop over the raw entries returns exactly `Loaded(src)`: the converted entries of an object root, and the empty map otherwise. |
| `Settings.NonObjectLoadsEmpty` | cogs/moderation.py:21-37 | A missing file, a read or parse failure, or a root that is not an object loads as the empty map. |
| `Settings.LoadedEntry` | cogs/moderation.py:28-33 | A key survives loading exactly when `int()` accepts its value, and then maps to that integer. |
| `Settings.OneMalformedEntryDropped` | cogs/moderation.py:29-34 | One malformed entry among valid ones is dropped alone: the loaded keys are all the others and the size is one less. |
| `Settings.ReloadDump` | cogs/moderation.py:40-43 | Loading what `save_settings` writes gives back the same settings, so a configuration survives a restart. |
| `Settings.IntOf` | cogs/moderation.py:31 | `int(v)` of a JSON value: fails on null, a non-finite float, an array, an object and a string `int()` rejects; a bool gives 1 or 0, an integer itself, a float its truncation toward zero, a string what `int()` of it gives. |
| `PyInt.ParseInt` | cogs/moderation.py:31 | `int()` of a string accepts exactly a surrounding-whitespace-stripped, optionally signed run of digits with single underscores between digits and at most 4300 digits; the value is that of the digits, negated exactly when the trimmed literal starts with `-`. |
| `Settings.Dump` | cogs/moderation.py:40-43 | What `save_settings` writes is an object with exactly the keys of the settings, each holding its role id as a JSON integer. |
| `Settings.QuotedIdLoads` | cogs/moderation.py:31 | A role id stored as a quoted decimal string of at most 4300 digits loads as that id. |
| `PyInt.ParseShowInt` | cogs/moderation.py:31 | `int()` of the decimal string of any integer of at most 4300 digits gives that integer back. |
| `Settings.GuildKey` | cogs/moderation.py:68 | `str(guild.id)` is a non-empty run of decimal digits whose value is the guild id, with no leading zero unless it is `"0"` itself, so `"07"` is never guild 7's key. |
| `PyInt.ShowNatNoLeadingZero` | cogs/moderation.py:68 | `str(n)` of a non-negative integer starts with `0` only when it is the single digit `"0"`, and is one digit long exactly when `n` is below ten. |
| `Settings.GuildKeyReads` | cogs/moderation.py:68 | `int()` of a guild's key gives back the guild id, for keys within the 4300-digit limit. |
| `Settings.GuildKeyInjective` | cogs/moderation.py:68 | Distinct guild ids have distinct `str(guild.id)` keys. |
| `Settings.GetSpamRole` | cogs/moderation.py:67-71 | No role for a guild without an entry or whose entry is 0; a role is returned only when it is the stored non-zero id and the guild still has it, and then always. |
| `Settings.Configure` | cogs/moderation.py:97 | The store adds the guild's key, maps it to the role id and leaves every other key and value as it was. |
| `Settings.ConfigureThenGet` | cogs/moderation.py:67-97 | After storing a non-zero role the guild has, the lookup returns that role. |
| `Settings.ConfigureOtherGuild` | cogs/moderation.py:97 | Storing a role for one guild leaves every other guild's lookup unchanged. |
| `Settings.ConfigureLastWins` | cogs/moderation.py:97 | Storing twice equals storing the last role; repeating a store changes nothing. |
| `Moderation.ApplySpamRole` | cogs/moderation.py:73-78 | Fails with `RoleUnresolved`, granting nothing, when no role resolves, and with `AddRolesFailed` when a role resolves but the platform refuses the grant; succeeds exactly when a role resolves and the grant is accepted, returning the stored id. |
| `Moderation.Dispatch` | cogs/moderation.py:148-163 | A role is granted exactly when one resolves and the grant succeeds. The grant is reported, naming the granted role, exactly when it happened and its report went through. A failure report names its cause: an unresolved role, a refused grant, or a success report that raised (`LogFailed`). The handler escapes exactly when a failure report raises. |
| `Moderation.ModerationCog.constructor` | cogs/moderation.py:47-50 | Starts with no timestamps and with the settings loaded from the file. |
| `Moderation.ModerationCog.OnMessage` | cogs/moderation.py:120-166 | Untracked messages change nothing: a message is tracked (`Tracked`) exactly when it comes from a guild and its author is a member, not a bot and not an administrator. Otherwise the user's list becomes the window of the list stored before (`TimesOf`: the user's list, or `[]` for a user with none, as `dict.get(uid, [])` at line 134), or `[]` after a firing that did not escape. It fires exactly when the window reaches `SPAM_MAX_MSG`. The stored times are never older than `now - SPAM_WINDOW_SEC`, `now` is stored unless the detector fired, and no other user's list changes. |
| `Moderation.ModerationCog.SpamSetup` | cogs/moderation.py:83-103 | Outside a guild, or with a role not strictly below the bot's top role when the bot's member is known (`SetupAllowed`; an equal role is refused), settings and file are unchanged. Otherwise the one key is overwritten and the saved file reloads to the new settings. |
| `SpamWindow.Prune` | cogs/moderation.py:137-138 | Keeps exactly the timestamps at or after the cutoff, in their original order (an order-preserving subsequence). |
| `SpamWindow.PruneCounts` | cogs/moderation.py:137-138 | Keeps every occurrence of each timestamp at or after the cutoff and none before it (as multisets), so the result is never longer. |
| `SpamWindow.Window` | cogs/moderation.py:133-139 | The window after a message is the pruned earlier list followed by `now`, no entry is older than `now - SPAM_WINDOW_SEC`, and it is at most one longer than the earlier list. |
| `SpamWindow.Step` | cogs/moderation.py:134-166 | One handled message leaves fewer than `SPAM_MAX_MSG` entries: `[]` after a firing, and the window otherwise. |
| `SpamWindow.Replay` | cogs/moderation.py:132-166 | After a sequence of messages the list is below `SPAM_MAX_MSG`, holds only times of those messages, and each firing used up `SPAM_MAX_MSG` of them. |
| `SpamWindow.ReplayFromEvents` | cogs/moderation.py:132-166 | The list after a sequence of messages holds each timestamp no more often than the messages carry it (as multisets), so every entry stands for a distinct real message. |
| `SpamWindow.SpanTooWideNeverFires` | cogs/moderation.py:137-141 | `SPAM_MAX_MSG` messages whose first and last lie more than `SPAM_WINDOW_SEC` apart never fire: at the last one the first is before the cutoff, so at most `SPAM_MAX_MSG - 1` remain. |
| `SpamWindow.WindowContents` | cogs/moderation.py:133-139 | The window holds `now` after the earlier timestamps still inside it, and nothing before `now - SPAM_WINDOW_SEC`. |
| `SpamWindow.GapClearsWindow` | cogs/moderation.py:137-139 | A message more than `SPAM_WINDOW_SEC` after all earlier ones leaves a window of one. |
| `SpamWindow.FiresIffThreshold` | cogs/moderation.py:134-166 | Fires exactly when the earlier in-window timestamps plus `now` reach `SPAM_MAX_MSG`. A firing leaves `[]`; otherwise `now` is kept. |
| `SpamWindow.NoRefireAfterReset` | cogs/moderation.py:165-166 | After a reset the next message leaves a list of one and does not fire. |
| `SpamWindow.BurstFiresOncePerThreshold` | cogs/moderation.py:132-166 | Messages all within one window fire once per `SPAM_MAX_MSG` of them (five within six seconds fire exactly once). The list then holds only the messages since the last firing. |
| `SpamWindow.SpreadNeverFires` | cogs/moderation.py:132-141 | Messages each more than a window apart never fire and leave only the latest timestamp. |
| `Ticket.LowerAll` | cogs/ticket.py:57 | Each character is lowered, and the length is kept. |
| `Ticket.ReplaceSpaces` | cogs/ticket.py:57 | Each space becomes `-` and every other character is kept, and the length is kept. |
| `Ticket.KeepAllowed` | cogs/ticket.py:58 | The result holds only alphanumerics, `-` and `_`. It is a subsequence of the input and keeps every occurrence of every allowed character (as multisets). |
| `Ticket.SafeName` | cogs/ticket.py:57-58 | The sanitised name holds only lowercase alphanumerics, `-` and `_`, never a space, and is no longer than the user name. |
| `Ticket.ChannelName` | cogs/ticket.py:59 | The channel name is `ticket-` followed by the sanitised name when that fits in 90 characters, and exactly its first 90 characters otherwise. |
| `Ticket.ChannelNameShape` | cogs/ticket.py:57-59 | The name starts with `ticket-` and is at most 90 long. After the prefix it holds only lowercase alphanumerics, `-` and `_`, and never a space. |
| `Ticket.SafeNameIsFilteredSubsequence` | cogs/ticket.py:57-58 | The sanitised name is an order-preserving subsequence of the lowered, space-replaced name, no longer than the user name, and keeps every occurrence of every allowed character (as multisets). |
| `Ticket.SafeNamePassesThrough` | cogs/ticket.py:57-59 | A name already made of lowercase alphanumerics, `-` and `_` passes unchanged; only the 90-character cut can apply. |
| `Ticket.SafeNameIdempotent` | cogs/ticket.py:57-58 | Sanitising a sanitised name changes nothing. |
| `Ticket.FindRoleByName` | cogs/ticket.py:39 | Returns nothing exactly when no role has the name; otherwise the id of the first role with it. |
| `Ticket.Overwrites` | cogs/ticket.py:45-54 | Entries are the default role, the requester and the staff role exactly when there is one. The requester and the staff role may view, send and read history. The default role is denied viewing unless the staff entry replaced it. |
| `Ticket.StaffEntryIffStaffRole` | cogs/ticket.py:39-54 | When the default role is not named `Staff`, the default role is always hidden, and a non-default role gets participant rights exactly when a role named `Staff` exists. |

## Left out

- Every call into the discord.py library is left out: deleting the message, `add_roles`, finding or creating the `mod-log` channel, sending messages, creating the ticket category and channel, embeds, views and replies. Only the outcomes the handler branches on are modelled, as `Effects`.
- The log texts are left out; only which report was attempted is modelled.
- Reading and writing the JSON text is left out, and so is `mkdir`. The file is modelled as its parsed value (`Source`), and `save_settings` as the value it writes (`Dump`). A save that raises after the in-memory store is not modelled.
- Timestamps are exact reals; the rounding of `time.time()` floats and of `now - 6` is not modelled.
- A JSON float is modelled by its truncation toward zero, which is all `int()` uses of it.
- `int()` on strings is modelled for ASCII digits and for the whitespace space, tab, newline, vertical tab, form feed and carriage return only; Unicode digits and the other whitespace Python also strips are not.
- `int()` refuses strings of more than 4300 digits, which the model keeps (`PyInt.MaxStrDigits`). That limit is configurable in Python (`PYTHONINTMAXSTRDIGITS`, `sys.set_int_max_str_digits`); the model fixes it at the default. `PyInt.ParseShowInt` and `Settings.QuotedIdLoads` therefore hold only for integers of at most 4300 digits.
- A JSON integer literal of more than 4300 digits makes the JSON reader itself fail, so the whole file loads as empty. The model takes the parsed value as given and does not derive that failure.
- `PyInt.ShowInt`: does not model `str()` raising on integers of more than 4300 digits; guild ids are 64-bit, far below it.
- `str(k)` on the keys is the identity, because JSON object keys are already strings. Duplicate keys are resolved by the JSON reader before the model sees a map.
- The role hierarchy comparison `role >= me.top_role` is modelled as a comparison of integer ranks. The library's tie-break between roles of equal position is folded into the rank.
- The `administrator` permission checks on the slash commands are done by the library before the handlers run, so they are not modelled.
- `spam_status` is not modelled separately: it only replies with the result of `_get_spam_role` (`Settings.GetSpamRole`).
- Ticket names: `lower()` and `isalnum()` are modelled on ASCII. Python also keeps non-ASCII letters and digits (kana, for instance) and lowers non-ASCII capitals; the model drops such characters.
- The ticket command's reply outside a guild and the close button are platform replies and channel deletion, so they are not modelled.
- The in-place `append` to the list fetched from the map (cogs/moderation.py:134-135) is modelled as building a new list. The list is stored back at line 139 either way, so nothing observable differs.
- cogs/auth.py is not part of this model: it is a dispatch over library lookups with no state of its own.
- main.py is not part of this model. It loads only `cogs.auth` and `cogs.ticket`, so the moderation cog modelled here is not loaded by the bot as shipped.
- Interleaving of handlers is not modelled. The source takes no locks, and a second message from the same user can be handled while the first is awaiting the delete, the grant or the log, before the reset at cogs/moderation.py:166.
