# bot-bin rules in Dafny

A Dafny model of the deterministic core of `bot-bin`, a toolkit of discord.py cogs. The model
covers four parts.

- **Phrase formatting** (`bot_bin/misc.py`, module `Misc`). This covers code blocks, the
  fixed-ratio split of seconds into days, hours, minutes and seconds, English plurals, "A, B
  and C" joining, `absolute_natural_timedelta`, `natural_timedelta` and the `uptime` reply.
  `natural_timedelta` is an imperative method. It is proved against the declarative function
  `Humanize`, and the properties of the phrase are proved about `Humanize`.
- **Configuration and message gating** (`bot_bin/bot.py`, module `Bot`). This covers the
  `convert_emoji` pattern search, the prefix search of `get_prefix_`/`prefix_re`, the defaults
  that `process_config` fills in place, and `should_reply`/`should_reply_to_bot`. The bot is a
  class whose configuration is processed in place.
- **Bot-list statistics** (`bot_bin/stats.py`, module `BotBinStats`). This covers the keying of
  `API_FORMATS`, the `configured_apis` filter, the request URL and payload, and the
  power-of-two notification threshold. It also covers `send_command`: its loop that splits
  answers into succeeded and failed, and the reply it builds.
- **The older statistics cog** (`ben_cogs/stats.py`, module `BenCogsStats`). This covers
  `_power_of_two`, the `_notify_owner` threshold, the `_get_data` payload, the 2xx test of
  `_post` and the `_load_configured_apis` loop. The loop is a method of a class.

Helper modules: `Wrappers` (`Option`), `Seqs` (list comprehension filtering, subsequences,
Python slicing), `Text` (decimal rendering and parsing, `str.join`, search, `str.isspace`, ASCII
case folding) and `PyInt` (Python's `&` on unbounded integers, powers of two).

Python's `//` and `%` by a positive divisor are floor operations, and so are Dafny's. So
`split_seconds` is modelled for every integer, negative ones included.

`natural_join` puts no comma before "and" ("A, B and C"), at `bot_bin/misc.py:79`. The model
follows that code.

## Model

| member | source | states |
|---|---|---|
| Misc.Codeblock | bot_bin/misc.py:19-20 | the fenced block: three backticks, the language tag, a newline, the body, three backticks; `CodeblockRoundTrip` reads it back |
| Misc.CodeblockRoundTrip | bot_bin/misc.py:19-20 | reading the fenced block back recovers the language tag and the body |
| Misc.SplitSeconds | bot_bin/misc.py:46-51 | days·86400 + hours·3600 + minutes·60 + seconds is the input, for every integer, with hours in [0, 24) and minutes and seconds in [0, 60) |
| Misc.SplitSecondsUnique | bot_bin/misc.py:46-51 | any breakdown with in-range hours, minutes and seconds is the one `split_seconds` returns |
| Misc.Plural | bot_bin/misc.py:57-66 | `format(plural(v), spec)`: the number, a space, then the singular form when the absolute value is 1 and the plural form (given after a bar, or the singular plus "s") otherwise; the three lemmas below state it |
| Misc.PluralOfWord | bot_bin/misc.py:57-66 | a plain word gets an "s" exactly when the absolute value is not 1 |
| Misc.PluralWithOverride | bot_bin/misc.py:62-66 | a `singular\|plural` spec uses the given plural form when the absolute value is not 1 |
| Misc.PluralOfOne | bot_bin/misc.py:64-66 | a count of one takes the singular |
| Misc.NaturalJoin | bot_bin/misc.py:68-79 | nothing for no items, the item for one, "A and B" for two, and the head joined by `sep` before " and " and the last item for more; the lemmas below state its shape |
| Misc.NaturalJoinTwo | bot_bin/misc.py:76-77 | two items read "A and B" |
| Misc.NaturalJoinThree | bot_bin/misc.py:79 | three items read "A, B and C", with no comma before "and" |
| Misc.NaturalJoinCons | bot_bin/misc.py:68-79 | from three items on, the first item, the separator, then the joined rest |
| Misc.NaturalJoinStartsWithFirst | bot_bin/misc.py:68-79 | the joined text starts with the first item |
| Misc.NaturalJoinEndsWithLast | bot_bin/misc.py:68-79 | the joined text ends with the last item |
| Misc.NaturalJoinAvoids | bot_bin/misc.py:68-79 | joining adds no character that is not a space or in the separator or conjunction |
| Misc.SecondsParts | bot_bin/misc.py:29-31 | the kept terms are non-zero, in day, hour, minute, second order, none of the non-zero ones missing, and some term is kept unless the input is 0 |
| Misc.AbsoluteNaturalTimedelta | bot_bin/misc.py:22-32 | "0 seconds" for zero; otherwise the non-zero day, hour, minute and second terms, truncated to `accuracy` (all of them for `None`) and naturally joined |
| Misc.AbsoluteZeroSentinel | bot_bin/misc.py:25-27 | the result is "0 seconds" if and only if the input is 0 |
| Misc.AbsoluteHoursMinutesSeconds | bot_bin/misc.py:22-32 | under a day, accuracy 3 gives "H hours, M minutes and S seconds" |
| Misc.AbsoluteNoAccuracy | bot_bin/misc.py:22-32 | with `accuracy=None` nothing is cut: all three terms are joined |
| Misc.AbsoluteDefaultAccuracy | bot_bin/misc.py:22-32 | the default accuracy 2 keeps the two leading terms only |
| Misc.AbsoluteMinutesSeconds | bot_bin/misc.py:22-32 | under an hour, "M minutes and S seconds" |
| Misc.Humanize | bot_bin/misc.py:81-138 | the reply of `natural_timedelta` for a calendar difference: "now" when no term is left, the brief terms joined by spaces, or the verbose terms naturally joined, then the suffix; `NaturalTimedelta` computes it with the source's loop |
| Misc.Truncate | bot_bin/misc.py:131-132 | no accuracy keeps every term; a non-negative accuracy keeps that many leading terms, or all of them if fewer |
| Misc.CollectTerms | bot_bin/misc.py:108-129 | the loop over the attributes, with weeks split off the days and zero terms skipped, yields exactly the rendered non-zero components in order |
| Misc.NaturalTimedelta | bot_bin/misc.py:81-138 | the method returns `Humanize`: truncation, the "now" sentinel, the brief or natural join and the direction suffix |
| Misc.DeltaPartsShape | bot_bin/misc.py:108-129 | every term is positive, the terms keep year, month, week, day, hour, minute, second order, and no non-zero component is skipped |
| Misc.WeeksSplitOffDays | bot_bin/misc.py:114-124 | seven days or more give a week term immediately followed by the leftover days; whole weeks give no day term |
| Misc.WeeksAndDays | bot_bin/misc.py:114-129 | a difference of days only, not a whole number of weeks, reads "W weeks and D days" |
| Misc.WholeWeeks | bot_bin/misc.py:114-124 | a difference of a whole number of weeks reads "W weeks", with no "0 days" |
| Misc.HumanizeNow | bot_bin/misc.py:134-135 | "now" is returned if and only if no term survives truncation |
| Misc.ZeroDeltaIsNow | bot_bin/misc.py:134-135 | a zero difference reads "now" whatever the options |
| Misc.NonZeroDeltaIsNotNow | bot_bin/misc.py:108-135 | without an accuracy limit, any non-zero difference is described |
| Misc.HumanizeAgo | bot_bin/misc.py:92-97 | a result other than "now" ends in " ago" if and only if the target is not in the future and `ago` is set |
| Misc.TermDoesNotEndInGo | bot_bin/misc.py:119-129 | no rendered term ends in "go", so the suffix alone decides the ending |
| Misc.BriefHasNoComma | bot_bin/misc.py:126-138 | brief output is the terms joined by single spaces and no term holds a space; it has no comma, and without " ago" no 'a', so no "and" |
| Misc.Uptime | bot_bin/misc.py:207-215 | the not-up-yet text before the start time is known, then the untruncated humanized uptime, bare when brief and inside "I've been up for …." otherwise |
| Misc.UptimeNeverAgo | bot_bin/misc.py:211 | the uptime phrase never carries " ago" |
| Misc.UptimeOnceStarted | bot_bin/misc.py:207-215 | once started with time elapsed, the reply differs from the "not up yet" one |
| Bot.CoreAt | bot_bin/bot.py:185 | a parsed name is non-empty and made of `[A-Za-z0-9_]` |
| Bot.MatchAt | bot_bin/bot.py:185 | a match has an id, a non-empty name and an animation group of "a" or "" |
| Bot.FindEmoji | bot_bin/bot.py:185 | the search returns the leftmost position where the pattern matches, or none when it matches nowhere |
| Bot.ConvertEmoji | bot_bin/bot.py:184-188 | the first markup match as a partial emoji (animation flag, name, id), else an emoji named by the whole string; `ConvertEmojiParses`, `ConvertEmojiFallback` and `EmojiMarkupRoundTrip` state it |
| Bot.ConvertEmojiParses | bot_bin/bot.py:184-188 | an emoji is parsed (has an id) if and only if `:name:` followed by at least 17 digits occurs in the text |
| Bot.ConvertEmojiFallback | bot_bin/bot.py:188 | text without a colon, such as the default ❌ and ✅, becomes an emoji named by the whole text with no id |
| Bot.EmojiMarkupRoundTrip | bot_bin/bot.py:184-188 | parsing `<:name:id>` or `<a:name:id>` recovers the name, the id and the animation flag |
| Bot.PrefixAlternatives | bot_bin/bot.py:78-86 | the configured prefixes come first; the two mentions are added last when ready; an empty list and no mention give the single empty alternative |
| Bot.FirstAlternative | bot_bin/bot.py:85-88 | the first alternative in list order that occurs at the position, ignoring ASCII case |
| Bot.FindPrefix | bot_bin/bot.py:66-88 | the leftmost position where some alternative occurs, with the first alternative there; none exactly when none occurs anywhere |
| Bot.MatchText | bot_bin/bot.py:75-88 | the matched text is the prefix as written in the message followed by all the whitespace after it |
| Bot.PrefixFor | bot_bin/bot.py:65-88 | the text of the first prefix match, followed by its whitespace, or the fallback prefix when nothing matches; `PrefixFallback` and `MentionIsPrefix` state when each happens |
| Bot.PrefixFallback | bot_bin/bot.py:65-75 | the fallback is returned if and only if no alternative occurs in the message |
| Bot.MentionIsPrefix | bot_bin/bot.py:81-83 | once ready, a message that opens with the bot's mention gets the mention as its prefix |
| Bot.NoMentionBeforeReady | bot_bin/bot.py:81-83 | before ready, a message with none of the configured prefixes gets the fallback |
| Bot.NoPrefixesMatchLeadingSpace | bot_bin/bot.py:79-88 | with no prefixes and not ready, the prefix is the message's leading whitespace |
| Bot.ToSet | bot_bin/bot.py:54-55 | the set has exactly the listed ids |
| Bot.ProcessingKeepsPresentValues | bot_bin/bot.py:49-55 | a configured default is kept, an absent one becomes true, and configured override ids keep their members |
| Bot.ProcessingEmptyOverrides | bot_bin/bot.py:51-53 | absent overrides become empty |
| Bot.DefaultEmojisConverted | bot_bin/bot.py:44-47 | without configured emojis the reactions are the plain ❌ for false and ✅ for true |
| Bot.ShouldReplyToBot | bot_bin/bot.py:146-156 | a bot gets a reply unless `ignore_bots.default` is set, and a guild or channel override flips that; the three lemmas below state it |
| Bot.GuildOverrideFlips | bot_bin/bot.py:150-154 | listing the message's guild flips the decision, unless its channel already did |
| Bot.BothOverridesFlipOnce | bot_bin/bot.py:153-154 | being listed as guild and as channel flips only once |
| Bot.NoLocationNoOverride | bot_bin/bot.py:150-151 | a message with no guild and no channel is never overridden |
| Bot.Bot.constructor | bot_bin/bot.py:27-41 | the configuration is processed, the fallback prefix stored, the bot not ready, and the activity is the initial one |
| Bot.Bot.ProcessConfig | bot_bin/bot.py:43-55 | every emoji value is converted under the same keys (❌/✅ by default); present settings are kept, absent ones defaulted; override ids become sets |
| Bot.Bot.InitialActivity | bot_bin/bot.py:57-63 | no activity if and only if the prefixes are missing or empty; otherwise a game named after the first prefix plus "help" |
| Bot.Bot.BecomeReady | bot_bin/bot.py:92-99 | the bot is ready as its user and its activity is set again |
| Bot.Bot.GetPrefix | bot_bin/bot.py:65-88 | the mentions take part in the prefix search only once the bot is ready |
| Bot.Bot.ShouldReply | bot_bin/bot.py:140-144 | never to itself, always to another human, and to another bot as `should_reply_to_bot` decides |
| BotBinStats.NetlocOfUrl | bot_bin/stats.py:24 | the network location of a template URL is its host |
| BotBinStats.ApiFormats | bot_bin/stats.py:23-32 | one entry per URL template, keyed by the template's host, in the listed order |
| BotBinStats.ApiKeysAreTheHosts | bot_bin/stats.py:23-32 | `API_FORMATS` has five entries, keyed by the five different hosts, in template order |
| BotBinStats.KeyIndex | bot_bin/stats.py:52 | the first position of the key, or the length when absent |
| BotBinStats.ConfiguredApis | bot_bin/stats.py:39-43 | the known hosts whose token is configured and not None, in `API_FORMATS` order; `ConfiguredApisExactly` states it |
| BotBinStats.ConfiguredApisExactly | bot_bin/stats.py:39-43 | a bot list is configured if and only if its token is present and not None, in `API_FORMATS` order |
| BotBinStats.Placeholder | bot_bin/stats.py:52 | the first `{}` of the template |
| BotBinStats.SubstituteSplit | bot_bin/stats.py:52 | the value takes the place of the first `{}` |
| BotBinStats.RequestUrl | bot_bin/stats.py:52 | the key's template with the bot id in place of `{}`, or nothing for a key that is not a known host; `RequestUrlOfKey` states it |
| BotBinStats.RequestUrlOfKey | bot_bin/stats.py:52 | the URL for a key is its template with the user id substituted |
| BotBinStats.Payload | bot_bin/stats.py:53 | the JSON object `{"server_count": N}`; `PayloadCarriesCount` states it |
| BotBinStats.PayloadCarriesCount | bot_bin/stats.py:53 | the payload is `{"server_count": N}` and N reads back as the count |
| BotBinStats.NotifiesOwners | bot_bin/stats.py:67-74 | the owners hear of a guild count above 4 whose bit trick `n & (n - 1)` is 0; `NotifiesOwnersAtPowersOfTwo` ties it to powers of two |
| BotBinStats.NotifiesOwnersAtPowersOfTwo | bot_bin/stats.py:69-74 | the owners are notified if and only if the count is 2^k with k ≥ 3 (8, 16, 32, …) |
| BotBinStats.Partition | bot_bin/stats.py:97-100 | the loop puts the 2xx answers in `succeeded` and the others in `failed`, each in input order |
| BotBinStats.PartitionIsExact | bot_bin/stats.py:97-100 | every answer lands in exactly one list, each list a subsequence of the answers |
| BotBinStats.ReactionsAsWritten | bot_bin/stats.py:102-127 | the reactions as the code adds them |
| BotBinStats.NoApisReactsBoth | bot_bin/stats.py:102-118 | with no bot list configured the code reacts with both ✅ and ❌ |
| BotBinStats.Reaction | bot_bin/stats.py:127 | ✅ if and only if some list answered and none failed, otherwise ❌ |
| BotBinStats.ReactionAgreesWhenSome | bot_bin/stats.py:102-127 | whenever some list answered, the single reaction is the last one the code adds |
| BotBinStats.FormatApis | bot_bin/stats.py:105-109 | one bullet per answer: key, bold status, newline and the shortened text, lines joined by newlines |
| BotBinStats.SendCommand | bot_bin/stats.py:93-129 | partitions the answers and replies with `ReplyText`; it reacts once with the corrected `Reaction`, which is what the code adds whenever some answer failed |
| BotBinStats.ReplyText | bot_bin/stats.py:111-129 | the successes section, then the failures section, a blank line between, or the no-APIs notice; the two lemmas below state it |
| BotBinStats.ReplyTextBothSections | bot_bin/stats.py:111-128 | the successes section comes first, then a blank line, then the failures section |
| BotBinStats.ReplyTextNotice | bot_bin/stats.py:116-123 | the "No APIs are currently configured" notice is sent if and only if there were no answers |
| BenCogsStats.PowerOfTwo | ben_cogs/stats.py:86-88 | true if and only if n is 0 or a power of two |
| BenCogsStats.NotifiesOwner | ben_cogs/stats.py:77-84 | the owner hears of a guild count above 4 that `_power_of_two` accepts; `NotifiesOwnerAgrees` states it |
| BenCogsStats.NotifiesOwnerAgrees | ben_cogs/stats.py:83-84 | 0 passes the test; the threshold makes the owner hear of exactly 8, 16, 32, …, as in the newer cog |
| BenCogsStats.PostSucceeded | ben_cogs/stats.py:66 | `status // 100 == 2`, Python floor division; `PostSucceededIs2xx` states it is the 2xx range |
| BenCogsStats.PostSucceededIs2xx | ben_cogs/stats.py:66 | `status // 100 == 2` is the 200–299 range |
| BenCogsStats.PostUrl | ben_cogs/stats.py:61 | `https://{key}/api/bots/{id}/stats`; `PostUrlHost` states its host is the key |
| BenCogsStats.PostUrlHost | ben_cogs/stats.py:61 | the host of the posted URL is the configuration key |
| BenCogsStats.Fields | ben_cogs/stats.py:71-75 | `server_count` comes first, and `shard_id` is there if and only if a shard is given |
| BenCogsStats.GetData | ben_cogs/stats.py:71-75 | `json.dumps` of the server count, and of the shard id when one is given; the two lemmas below state the text |
| BenCogsStats.GetDataWithoutShard | ben_cogs/stats.py:72-75 | without a shard, the payload is the newer cog's |
| BenCogsStats.GetDataWithShard | ben_cogs/stats.py:72-75 | with a shard, `{"server_count": N, "shard_id": S}` |
| BenCogsStats.Loaded | ben_cogs/stats.py:44-50 | the keys with a token, and whether the loop finished before a missing key raised; never more keys than were checked |
| BenCogsStats.LoadedCompletes | ben_cogs/stats.py:46-47 | loading completes if and only if every key is in the configuration |
| BenCogsStats.LoadedKeepsPresent | ben_cogs/stats.py:46-50 | then it keeps exactly the keys whose token is not None, in order |
| BenCogsStats.Stats.LoadConfiguredApis | ben_cogs/stats.py:44-50 | the loop resets the list and leaves it, and whether it completed, as `Loaded` over the two keys |

## Findings

| source | as written | input that shows it | evidently intended | confidence | as-written member | corrected member |
|---|---|---|---|---|---|---|
| bot_bin/stats.py:102-118 | `send_command` adds ✅ when nothing failed, then ❌ when there is no message | no bot list configured (no answers at all) | one ❌ reaction when there is nothing to report | not executed; read from the code | BotBinStats.NoApisReactsBoth | BotBinStats.Reaction |

## Left out

- Discord, aiohttp and asyncpg are not modelled. This covers command handlers, `on_command_error`, `start`/`close`/`init_db`/`load_extensions`, posting and `asyncio.gather`, logging, owner lookup and reactions as API calls.
- The clock, `relativedelta` and `round` are not modelled. `natural_timedelta` takes the calendar difference as a `Delta` record plus a `future` flag. `absolute_natural_timedelta` takes whole seconds. `uptime` takes the elapsed difference, or `None` before the start time is known.
- `natural_rate` is not modelled: it is floating-point arithmetic with `.2g` formatting.
- `timeit` and the `PrettyTable` subclass are not modelled: they wrap a wall-clock timer and a third-party table library.
- Bot.FirstAlternative: case-insensitive matching folds ASCII letters only. Python's `re.IGNORECASE` also folds other Unicode letters. The prefixes are literal (`re.escape`), so no other regex syntax is needed.
- Bot.Bot.constructor: the fallback prefix is a parameter rather than a fresh `uuid4()`. The `setup_db`/asyncpg check and the `description` and `help_command` arguments are left out.
- Bot.Bot.ProcessConfig: the configuration dictionaries are values that the method reassigns. Another holder of the same nested `ignore_bots` dictionary would see the change in Python; that aliasing is not modelled. Configuration values are typed (booleans, id lists or sets, strings), where Python accepts any object.
- Bot.PartialEmoji: only the animation group, name and id are modelled. The animation field holds the matched string (`"a"` or `""`), as the code passes it.
- BotBinStats.Netloc: it handles `https://host/path` URLs only, which is the form of every template. It is not a general `urlparse`.
- BotBinStats.FormatApis: `textwrap.shorten(text, 150)` is a function parameter.
- BotBinStats.SendCommand: the method starts from the list of answers, in the order `configured_apis` posted them. The `TimedReactor` and the sending itself are not modelled.
- BotBinStats.SendCommand: it carries the corrected single reaction `Reaction`. With no answers the code adds ✅ then ❌, and with only successes it adds ✅ twice (lines 102-103 and 127-128); `ReactionsAsWritten` and `NoApisReactsBoth` model those.
- `notify_owners` leaves `owners` unbound when the bot has neither `owner_id` nor `owner_ids`. This belongs to the owner lookup, which is not modelled.
- `ben_cogs/stats.py` `on_guild_change` calls `send` with an argument it does not take. `_update_counts` calls `Counter.update` with an integer. Both are outside the modelled rules.
- The SQL, debug and other cogs, the top-level `stats.py` and `misc.py`, and packaging are not part of this model.
