# A Discord community bot's bookkeeping, in Dafny

This project models the in-memory bookkeeping of a single-file Discord bot
(`bot.py`). Most of it is the giveaway feature. A running giveaway sits in
the `giveaways` table, keyed by the id of its announcement message. Members
join or leave it with a button. When its time is up, or a moderator ends it,
winners are drawn and merged into a `gw_records` entry, which a reroll can
draw from again. Around it are:

- the compact duration parser (`2d3h`, `90m`) and the two remaining-time
  texts: `fmt_delta` for giveaways and the AFK elapsed time;
- the message-count levelling system;
- moderation warnings, removed by id;
- the link filter's switch and whitelist;
- the poll command's argument parsing and its one-vote-per-user buttons.

Code that changes state in place is modelled as classes with `modifies`
contracts:

- `GiveawayStore.Store` holds `giveaways` and `gw_records`.
- `Levels.LevelStore`, `Warns.WarnStore`, `Antilink.AntilinkConfig` and
  `Poll.PollView` hold the other tables.

Loops in the source are methods with loop invariants, each proved against a
pure function:

- `parse_duration`'s character loop;
- the level promotion loop;
- `warnremove`'s scan;
- the whitelist removal;
- the vote's discard-from-every-option loop;
- the updater's two passes.

The pure helpers are functions, with lemmas stating what they mean.
`parse_duration` is proved sound and complete against a grammar of
(digit run, unit) terms. Each time text is proved to read back into the
quantities it stands for.

Modelling conventions:

- **Discord and the clock are inputs.** Every Discord call becomes a
  parameter. Whether a giveaway's message can still be fetched is a
  boolean, or a set of reachable ids for the sweep. The time `now` is an
  integer number of seconds, as are all deadlines.
- **Randomness is arbitrary choice.** `random.shuffle` is an arbitrary
  enumeration of the participant set, chosen with `:|`. `random.choice` in
  the reroll is an arbitrary member of the pool.
- **Generated values are parameters.** This covers a warning's generated id
  and its date string.
- **Ids are numbers.** User, message and channel ids are natural numbers.
- **String operations are ASCII only.** The model's `isdigit`, `strip`,
  `lower` and `split` act on ASCII digits, whitespace and letters.

Two behaviours of the code that are easy to miss:

- **No record when the message is gone.** `end_giveaway` pops the giveaway
  first. When its channel or message cannot be fetched, it returns before
  writing any record (bot.py:253-263). `GiveawayStore.Concluded` states
  exactly that: `DisplayLost`, with the record left unchanged.
- **Seconds are dropped once a minute shows.** `fmt_delta` shows seconds
  only when days, hours and minutes are all zero. So 3700 seconds is
  "1h 1m", not "1h 1m 40s" (`TimeFormat.FmtDeltaExample`).

## Model

| member | source | states |
|---|---|---|
| Text.NatToString | bot.py:177-178 | the decimal rendering of `n` is a non-empty run of digits, with no leading zero, that reads back as `n` |
| Text.WordsOfJoin | bot.py:1445-1450 | `" ".join(ws).split() == ws` for non-empty words without whitespace |
| Text.WordsFromNoSpace | bot.py:1445 | the words of `split()` contain no whitespace |
| Text.SplitOfJoin | bot.py:1548 | `sep.join(parts).split(sep) == parts` when no part contains the separator |
| Duration.ParseDuration | bot.py:180-196 | the method (empty check, strip/lower, character loop) returns exactly `Parse(s)` |
| Duration.ScanLoop | bot.py:183-196 | the character loop, with its `total`/`num` accumulators, computes `Scan` over the normalized text |
| Duration.ScanRender | bot.py:186-195 | a well-formed sequence of (digit run, unit) terms is read as its total Σ n·{86400, 3600, 60}, rejected when that total is 0 |
| Duration.ScanSound | bot.py:186-195 | whatever the loop accepts splits into well-formed terms that spell the input and add up to the result |
| Duration.ParseWellFormed | bot.py:180-196 | completeness: a token whose stripped, lower-cased form is well-formed terms parses to their total when positive, and is rejected otherwise |
| Duration.ParseAccepted | bot.py:180-196 | soundness: a token that parses is, stripped and lower-cased, well-formed terms whose positive total is the result |
| Duration.ParseReordered | bot.py:184-192 | terms may come in any order: swapping two blocks of terms does not change the result |
| Duration.NormalizeRender | bot.py:186 | a rendering of well-formed terms is unchanged by `strip().lower()` |
| Duration.RejectedExamples | bot.py:181-182 | the empty token and a lone number ("10") are rejected |
| Duration.ZeroRejected | bot.py:194-195 | a zero total ("0m") is rejected |
| Duration.DanglingDigits | bot.py:194-195 | digits with no unit after them are rejected |
| Duration.ReorderedExample | bot.py:180-196 | "1d2h" and "2h1d" both parse to 93600 |
| Duration.HoursMinutesExample | bot.py:180-196 | "1h2m" parses to 3720 |
| Duration.NormalizedExample | bot.py:186 | " 2H " parses to 7200: surrounding whitespace and upper-case units are accepted |
| TimeFormat.ReadRender | bot.py:213 | a `" ".join` of `<n><unit>` quantities reads back as those quantities |
| TimeFormat.ClockPartsMeaning | bot.py:200-210 | the d/h/m parts appear only when non-zero, largest first; there are none exactly when the count is under a minute; and they add up to the count rounded down to the minute; hours are under 24 and minutes under 60, so the parts are the divmod values |
| TimeFormat.DeltaPartsMeaning | bot.py:198-213 | `fmt_delta`'s parts are never empty; they are largest first and non-zero, except a lone seconds part, which appears exactly when the clamped input is under 60; they add up to the clamped input, rounded down to the minute from one minute on; hours are under 24, minutes and seconds under 60 |
| TimeFormat.FmtDeltaReadsBack | bot.py:198-213 | the text `fmt_delta` returns reads back as those parts |
| TimeFormat.FmtDeltaExample | bot.py:198-213 | `fmt_delta(3700) == "1h 1m"` and `fmt_delta(-5) == "0s"` |
| TimeFormat.AfkArith | bot.py:1239-1242 | floor division and modulo of the elapsed seconds into hours, minutes and seconds |
| TimeFormat.AfkPartsMeaning | bot.py:1238-1249 | the AFK parts: hours only when positive, minutes only when between 1 and 59, seconds always last and under 60, largest first; for a non-negative time they add up to it (no days), for a negative one to `t % 3600` |
| TimeFormat.AfkTimeMeaning | bot.py:1238-1249 | the AFK text reads back as those parts, with the same positivity, bounds, order and sum |
| GiveawayCore.WinnersLabel | bot.py:177-178 | the label starts with the digits of `n` and ends in " winner" exactly when `n == 1`, " winners" otherwise |
| GiveawayCore.DescriptionReadsBack | bot.py:215-222 | the running card splits on newlines into its lines: prize, winner label, time left, participant count, blank, instruction |
| GiveawayCore.StartCardIsRunning | bot.py:1458-1464 | the card `gwstart` posts is the running card of the new giveaway at its start |
| GiveawayCore.Toggle | bot.py:234-239 | the presser is in the result exactly when they were not before; every other participant is unchanged |
| GiveawayCore.ToggleTwice | bot.py:234-239 | pressing join twice restores the participants |
| GiveawayCore.ToggleParity | bot.py:234-239 | after a sequence of presses, a user is in exactly when they started in and pressed an even number of times, or started out and pressed an odd number |
| GiveawayCore.Shuffle | bot.py:264-270 | the shuffled list lists every participant exactly once |
| GiveawayCore.Draw | bot.py:265-271 | the winners are the first `min(max(1, w), len)` of the shuffled list |
| GiveawayCore.DrawValid | bot.py:264-273 | the first `max(1, w)` of a shuffle are distinct participants, as many as `min(max(1, w), len(P))`, and none exactly when there are no participants |
| GiveawayCore.DrawWinners | bot.py:264-273 | the draw of an end is a valid draw, empty exactly when nobody took part |
| GiveawayCore.MergeGrows | bot.py:274-284 | the merged record's participants are exactly old ∪ P and its winners exactly old ∪ drawn (P and drawn alone when there was no record); winners stay participants; prize and channel come from the giveaway |
| GiveawayCore.RerollShrinksPool | bot.py:1506-1514 | a reroll takes exactly its winner out of the pool (participants − won) and keeps every winner a participant |
| GiveawayCore.RerollsDistinct | bot.py:1506-1514 | successive rerolls never pick the same user twice nor an earlier winner, and stop once the pool is used up |
| GiveawayCore.StartCommand | bot.py:1443-1457 | usage is shown exactly when an argument is missing or the prize is empty, checked before the duration; past that, "invalid duration" is reported exactly when the duration does not parse; a started giveaway has the prize and count that `SplitPrize` reads from the rest and the positive parsed duration |
| GiveawayCore.CheckStart | bot.py:1443-1457 | the command's checks, run with the character-loop parser, give the outcome `StartCommand` describes |
| GiveawayCore.PrizeOneLine | bot.py:1445-1451 | the prize read from the words of the command holds no line break |
| GiveawayCore.Mentions | bot.py:272-273 | one `<@id>` mention per winner, in draw order |
| GiveawayCore.ResultTextMeaning | bot.py:266-273 | the result line says "No one participated." exactly when there are no winners, names a sole winner by mention, and is one line |
| GiveawayCore.EndTexts | bot.py:285-290 | the ended card's description and the channel announcement split into the prize line and the result line |
| GiveawayCore.RerollReplyLines | bot.py:1515-1517 | the reroll reply splits into the link line, the new winner's mention and the original prize |
| GiveawayCore.SplitPrizeWithCount | bot.py:1445-1450 | "<prize words> <n>": the words are the prize and `n` is the winner count |
| GiveawayCore.SplitPrizeWithoutCount | bot.py:1445-1452 | when the last word is not a number, all the words are the prize and one winner is drawn |
| GiveawayCore.CountWithoutPrize | bot.py:1445-1454 | a lone number is taken as the count, leaves no prize, and the command shows its usage |
| GiveawayCore.GiftCardStart | bot.py:1443-1457 | `gwstart 1h2m Gift Card 2` starts a 3720-second giveaway for "Gift Card" with 2 winners |
| GiveawayCore.GiftCardDraw | bot.py:234-273 | users 1, 2, 1 press join; only 2 is left, and a draw of two winners gives just [2] |
| GiveawayStore.Store.constructor | bot.py:40-41 | both tables start empty |
| GiveawayStore.Store.Start | bot.py:1437-1472 | on a valid command, the registry gains the entry (end = now + seconds, prize, winners, no participants, channel) and the start card is posted; otherwise nothing changes |
| GiveawayStore.Store.Join | bot.py:230-251 | on a running giveaway the presser is toggled, they are told whether they joined or left, and the card is redrawn; on any other id it is inactive and nothing changes |
| GiveawayStore.Store.EndGiveaway | bot.py:253-290 | the id leaves the registry in every case; a second call is `NotRunning` and changes nothing; with the message reachable, a valid draw is merged into the record and announced, otherwise no record is written; other records are unchanged |
| GiveawayStore.Store.EndCommand | bot.py:1474-1489 | acknowledged exactly when the replied-to message is a running giveaway, which is then ended |
| GiveawayStore.Store.Reroll | bot.py:1491-1517 | no record or an empty pool changes nothing; otherwise the new winner is from the pool, `won` gains exactly that user, participants are unchanged |
| GiveawayStore.Store.Partition | bot.py:1816-1835 | the updater's first pass lists each expired id once, and redraws every unexpired giveaway whose message is reachable |
| GiveawayStore.Store.EndAll | bot.py:1836-1840 | the second pass ends every listed id in turn: each one still running is concluded as `end_giveaway` does, each one already gone is `NotRunning`; the listed ids leave the registry and no other record changes |
| GiveawayStore.Store.Sweep | bot.py:1813-1841 | after one updater pass, exactly the unexpired giveaways remain running, unchanged; every expired one is concluded as `end_giveaway` does; other records are unchanged |
| Levels.CumulativeStep | bot.py:70-74 | `cumulative(L+1) − cumulative(L) == msgs_needed_for_next(L)` |
| Levels.CumulativeIsSum | bot.py:70-74 | the closed form is the sum of the per-level steps |
| Levels.CumulativeMonotone | bot.py:70-71 | more levels never need fewer messages (from level −1 on) |
| Levels.BracketUnique | bot.py:86-97 | a message count lies in the bracket of exactly one level |
| Levels.Promote | bot.py:90-92 | the promotion loop never lowers the level; every level it climbs was reached by the count, and the next one is not |
| Levels.PromoteLandsInBracket | bot.py:86-97 | a count that had reached its level ends inside the promoted level's bracket, with `0 <= progress < next` |
| Levels.StatsOf | bot.py:76-84 | a user's entry, or the zero entry for a new user |
| Levels.LevelStore.GetUserStats | bot.py:76-84 | returns the entry, creating the zero entry when missing; nothing else changes |
| Levels.LevelStore.AddMessage | bot.py:86-97 | counts one message and promotes; reports levels gained, level, progress, step and total; keeps every user in its bracket and `0 <= progress < next` |
| Levels.LevelStore.SetLevel | bot.py:99-104 | the level is clamped at 0 and the count set to exactly its cumulative total |
| Levels.LevelStore.SetAllZero | bot.py:106-110 | every known user is reset to level 0 with no messages; no user is added or removed |
| Warns.RemoveFirst | bot.py:1126-1128 | `list.remove` of the first warning with the id: one shorter when present, unchanged otherwise |
| Warns.RemoveFirstAt | bot.py:1126-1128 | removal cuts out exactly the first matching warning, keeping the others in order |
| Warns.RemoveFirstMultiset | bot.py:1126-1128 | the removed warning plus the remaining ones are the original list as a multiset |
| Warns.RemovalKeepsLists | bot.py:1130-1131 | a list emptied by the removal is deleted, so no list in the table is empty |
| Warns.AddThenRemove | bot.py:1068-1078 | removing a warning whose id was fresh when it was added restores the table |
| Warns.WarnStore.AddWarn | bot.py:1047-1079 | bots and self-warnings are refused with no change; otherwise the warning (id, moderator, reason or "Unspecified", date) is appended to the user's list |
| Warns.WarnStore.FindWarn | bot.py:1126-1127 | the position of the first warning with the id, or −1 exactly when there is none |
| Warns.WarnStore.WarnRemove | bot.py:1115-1146 | with no id, the usage; otherwise every user's first warning with that id is removed, emptied lists are deleted, and it is reported removed exactly when some list held the id |
| Antilink.RemoveFirst | bot.py:1201-1202 | `list.remove`: one shorter when present, unchanged otherwise, no other user affected |
| Antilink.RemoveFirstNoDuplicates | bot.py:1201-1202 | in a list without duplicates, the removal takes the user out entirely and keeps the list duplicate-free |
| Antilink.WithAdded | bot.py:1190-1192 | appending only when absent keeps the whitelist duplicate-free and contains the user |
| Antilink.AddThenRemove | bot.py:1185-1206 | adding a user not listed and removing them restores the whitelist |
| Antilink.WhitelistEditsFilter | bot.py:170-175 | after an add the user may post links; after a removal only as a moderator; nobody else's standing changes |
| Antilink.AntilinkConfig.constructor | bot.py:138-139 | the filter starts off with an empty whitelist |
| Antilink.AntilinkConfig.On | bot.py:1153-1158 | turns the filter on, whitelist unchanged |
| Antilink.AntilinkConfig.Off | bot.py:1160-1165 | turns the filter off, whitelist unchanged |
| Antilink.AntilinkConfig.WhitelistAdd | bot.py:1185-1194 | appends the user unless listed, and keeps the whitelist duplicate-free; the user's links are no longer deleted, and nobody else's treatment changes |
| Antilink.AntilinkConfig.WhitelistRemove | bot.py:1196-1206 | reports whether the user was listed and removes them, leaving them unlisted; their links are then deleted unless they moderate, and nobody else's treatment changes |
| Antilink.FilterRule | bot.py:170-175 | `antilink_allowed`: a moderator or a whitelisted user; a message is deleted exactly when the filter is on, it has a link and its author is not allowed (bot.py:1260-1261); this spells out the rule, and WhitelistEditsFilter and the filter clauses of WhitelistAdd and WhitelistRemove are what is proved about it |
| Poll.Options | bot.py:1548 | the kept options are stripped and non-empty, and no more numerous than the pieces |
| Poll.OptionsOfStripped | bot.py:1548 | options that are already stripped and non-empty pass through unchanged |
| Poll.FirstFive | bot.py:1553-1554 | at most five options are kept, in order, and all of them when there are at most five |
| Poll.PollOptions | bot.py:1547-1554 | from two to five stripped options, none containing the bar separator, or "too few options" |
| Poll.ParsePoll | bot.py:1543-1554 | a parsed poll has a question without `"` and two to five stripped options; input with no `"` gets the usage |
| Poll.OneQuote | bot.py:1543-1550 | a single double quote gets the usage |
| Poll.StripPadded | bot.py:1548 | an option with one space on either side, as the documented spaced-bar form leaves it, strips back to itself |
| Poll.OptionsOfSpaced | bot.py:1547-1548 | the pieces of options joined with a spaced bar contain no bar and strip back to the options |
| Poll.PollRoundTrip | bot.py:1543-1554 | a question in double quotes followed by options separated by a bar or by a spaced bar gives back `q` and the first five options when there are at least two, "too few options" otherwise |
| Poll.CastVote | bot.py:1531-1534 | after a vote the voter is on exactly the chosen option; no other voter moves |
| Poll.CastVoteSingleChoice | bot.py:1529-1536 | voting keeps every user on at most one option |
| Poll.CastVoteIdempotent | bot.py:1529-1536 | voting twice for the same option is voting once |
| Poll.PollView.constructor | bot.py:1519-1522 | one empty voter set per distinct option |
| Poll.PollView.Vote | bot.py:1529-1536 | a press on an option moves the presser's vote there and confirms it; any other press changes nothing; one vote per user is kept |

## Left out

- Discord I/O is left out: sending, editing and fetching messages, embeds, buttons, reactions and permission checks, since these are calls into the Discord library. A failed message fetch is an input (`reachable`). The moderator checks in front of each command are not modelled.
- JSON loading and saving of the level, warning and link-filter tables is left out, since it is file I/O. So are the JSON round trip's string keys: ids are numbers here.
- GiveawayStore.Store.Sweep: one pass is modelled as atomic. In the source, other commands can run at each `await` of the pass, for example a `gwend` that ends a listed giveaway first. `EndAll` covers that case on its own, reporting such an id as `NotRunning`.
- The background updater's `while` loop, its `asyncio.sleep(30)` and its exception swallowing are left out, since they are scheduling. `Sweep` is one pass of it.
- `random.shuffle`, `random.choice` and the random warning id are not modelled as a generator. They are arbitrary choices or parameters, because the code promises nothing about their distribution.
- The updater refresh and the end both use the single `reachable` set. The source fetches each message separately and could see it vanish in between.
- `Join`'s card redraw is always returned. The source redraws only when the interaction's message has an embed, and ignores failures; that is display only.
- The reroll's filter on string ids (`isinstance` / `isdigit`) is left out, because ids are numbers here.
- `progress_bar` and the leaderboard score are left out, because they use floating-point ratios and rounding.
- The link regex is left out, because it needs the `re` library. Whether a message contains a link is a boolean input to `AntilinkConfig.Blocks`.
- Unicode digits, whitespace and case are left out: `isdigit`, `strip`, `lower` and `split` act on ASCII only.
- The poll's "End" tally text is left out, because it is display only. Discord's limits on buttons and labels are left out too.
- The warning date is a parameter, because it comes from the clock. So is the way the warned user is resolved (mention or reply).
- Tickets, the help menu, moderation commands, info lookups, the embed builder, ping/uptime and the AFK command's own bookkeeping are left out, because they are Discord interface glue.
