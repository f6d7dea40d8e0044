/** The configuration and message-gating rules of bot_bin/bot.py: filling in configuration
    defaults, parsing custom emoji, choosing the command prefix of a message, and deciding which
    messages to answer. */
module Bot {
  import opened Wrappers
  import opened Text

  // ---------------------------------------------------------------- convert_emoji

  /** The fields of `discord.PartialEmoji` this module sets. `animated` holds the regex group
      (`"a"` or `""`) for a parsed emoji and `None` otherwise. */
  datatype PartialEmoji = PartialEmoji(animated: Option<string>, name: string, id: Option<nat>)

  /** `[A-Za-z0-9_]`. */
  predicate IsNameChar(c: char) {
    'A' <= c <= 'Z' || 'a' <= c <= 'z' || '0' <= c <= '9' || c == '_'
  }

  /** The smallest custom emoji id the pattern accepts has 17 digits. */
  const MinIdDigits: nat := 17

  /** `:([A-Za-z0-9_]+):([0-9]{17,})` matched at `j`: the name and the value of the id. The
      quantifiers are greedy and the name cannot contain ':', so the name is the whole run of name
      characters after the first colon and the id the whole run of digits after the second. */
  function CoreAt(s: string, j: nat): (r: Option<(string, nat)>)
    ensures r.Some? ==> |r.value.0| >= 1 && forall c :: 0 <= c < |r.value.0| ==> IsNameChar(r.value.0[c])
  {
    if j < |s| && s[j] == ':' then
      var k := RunEnd(s, j + 1, IsNameChar);
      if k > j + 1 && k < |s| && s[k] == ':' then
        var e := RunEnd(s, k + 1, IsDigit);
        if e - (k + 1) >= MinIdDigits then Some((s[j + 1..k], DigitsValue(s[k + 1..e]))) else None
      else None
    else None
  }

  function Parsed(animated: string, core: (string, nat)): PartialEmoji {
    PartialEmoji(Some(animated), core.0, Some(core.1))
  }

  /** The whole pattern `<?(a?):…>?` anchored at `i`, trying the optional '<' and the optional 'a'
      present before absent, as the regex engine backtracks. The trailing `>?` always matches. */
  function MatchAt(s: string, i: nat): (r: Option<PartialEmoji>)
    ensures r.Some? ==> r.value.animated == Some("a") || r.value.animated == Some("")
    ensures r.Some? ==> r.value.id.Some? && |r.value.name| >= 1
  {
    var lt := i < |s| && s[i] == '<';
    if lt && i + 1 < |s| && s[i + 1] == 'a' && CoreAt(s, i + 2).Some? then Some(Parsed("a", CoreAt(s, i + 2).value))
    else if lt && CoreAt(s, i + 1).Some? then Some(Parsed("", CoreAt(s, i + 1).value))
    else if i < |s| && s[i] == 'a' && CoreAt(s, i + 1).Some? then Some(Parsed("a", CoreAt(s, i + 1).value))
    else if CoreAt(s, i).Some? then Some(Parsed("", CoreAt(s, i).value))
    else None
  }

  /** `re.search`: the leftmost position at or after `i` where the pattern matches. */
  function FindEmoji(s: string, i: nat): (r: Option<nat>)
    ensures r.Some? ==> i <= r.value < |s| && MatchAt(s, r.value).Some?
    ensures r.Some? ==> forall j :: i <= j < r.value ==> MatchAt(s, j).None?
    ensures r.None? ==> forall j :: i <= j < |s| ==> MatchAt(s, j).None?
    decreases |s| - i
  {
    if i >= |s| then None
    else if MatchAt(s, i).Some? then Some(i)
    else FindEmoji(s, i + 1)
  }

  /** `convert_emoji(s)`. */
  function ConvertEmoji(s: string): PartialEmoji {
    match FindEmoji(s, 0)
    case Some(i) => MatchAt(s, i).value
    case None => PartialEmoji(None, s, None)
  }

  /** A match at `i` always rests on a name and an id found at `i`, `i + 1` or `i + 2` ... */
  lemma MatchAtCore(s: string, i: nat) returns (d: nat)
    requires MatchAt(s, i).Some?
    ensures d <= 2 && CoreAt(s, i + d).Some?
  {
    d := if i < |s| && s[i] == '<' && i + 1 < |s| && s[i + 1] == 'a' && CoreAt(s, i + 2).Some? then 2
      else if CoreAt(s, i + 1).Some? then 1 else 0;
  }

  /** ... and a name and id at `i` is a match there. */
  lemma CoreIsMatch(s: string, i: nat)
    requires CoreAt(s, i).Some?
    ensures MatchAt(s, i).Some?
  {
  }

  /** A colon followed by a name, a colon and at least 17 digits anywhere in `s` is exactly what
      makes `convert_emoji` parse rather than fall back. */
  lemma {:induction false} ConvertEmojiParses(s: string)
    ensures ConvertEmoji(s).id.Some? <==> exists j :: 0 <= j < |s| && CoreAt(s, j).Some?
  {
    if ConvertEmoji(s).id.Some? {
      var i := FindEmoji(s, 0).value;
      var d := MatchAtCore(s, i);
      assert i + d < |s|;
    } else {
      forall j | 0 <= j < |s|
        ensures CoreAt(s, j).None?
      {
        if CoreAt(s, j).Some? {
          CoreIsMatch(s, j);
        }
      }
    }
  }

  /** Without a match the emoji is the unchanged text with neither id nor animation flag, as for
      the default reactions, which contain no colon. */
  lemma ConvertEmojiFallback(s: string)
    requires ':' !in s
    ensures ConvertEmoji(s) == PartialEmoji(None, s, None)
  {
    ConvertEmojiParses(s);
    forall j | 0 <= j < |s|
      ensures CoreAt(s, j).None?
    {
      assert s[j] != ':';
    }
  }

  /** Discord's rendering of a custom emoji, `<:name:id>` or `<a:name:id>`. */
  function EmojiMarkup(animated: bool, name: string, id: nat): string {
    "<" + (if animated then "a" else "") + ":" + name + ":" + NatToString(id) + ">"
  }

  lemma {:induction false} CoreOfMarkup(pre: string, name: string, id: nat)
    requires |name| >= 1 && forall c :: 0 <= c < |name| ==> IsNameChar(name[c])
    requires id >= Pow10(MinIdDigits - 1)
    ensures CoreAt(pre + ":" + name + ":" + NatToString(id) + ">", |pre|) == Some((name, id))
  {
    var s := pre + ":" + name + ":" + NatToString(id) + ">";
    var digits := NatToString(id);
    var j := |pre|;
    var k := j + 1 + |name|;
    var e := k + 1 + |digits|;
    assert s[j] == ':';
    assert s[k] == ':';
    assert s[j + 1..k] == name;
    assert RunEnd(s, j + 1, IsNameChar) == k;
    assert s[e] == '>';
    assert s[k + 1..e] == digits;
    assert RunEnd(s, k + 1, IsDigit) == e;
    NatToStringLength(id, MinIdDigits - 1);
    DigitsValueOfNatToString(id);
  }

  /** Parsing the markup of a custom emoji recovers its name, its id and its animation flag. */
  lemma EmojiMarkupRoundTrip(animated: bool, name: string, id: nat)
    requires |name| >= 1 && forall c :: 0 <= c < |name| ==> IsNameChar(name[c])
    requires id >= Pow10(MinIdDigits - 1)
    ensures ConvertEmoji(EmojiMarkup(animated, name, id))
         == PartialEmoji(Some(if animated then "a" else ""), name, Some(id))
  {
    var pre := "<" + (if animated then "a" else "");
    var s := EmojiMarkup(animated, name, id);
    assert s == pre + ":" + name + ":" + NatToString(id) + ">";
    CoreOfMarkup(pre, name, id);
    assert s[0] == '<';
    if animated {
      assert s[1] == 'a';
    } else {
      assert s[1] == ':';
    }
    assert FindEmoji(s, 0) == Some(0);
  }

  // ---------------------------------------------------------------- get_prefix_ / prefix_re

  /** Alternative `p` occurs at position `i` of `s`, ignoring ASCII case (`re.IGNORECASE` on
      an escaped literal). */
  predicate OccursAt(s: string, i: nat, p: string) {
    i + |p| <= |s| && forall c :: 0 <= c < |p| ==> Fold(s[i + c]) == Fold(p[c])
  }

  /** The mention prefixes `<@id>` and `<@!id>`. */
  function Mentions(id: nat): seq<string> {
    ["<@" + NatToString(id) + ">", "<@!" + NatToString(id) + ">"]
  }

  /** The alternatives of `prefix_re`: the configured prefixes, then the two mentions once the
      bot is ready (`mention` is the bot's own id then, and `None` before). An empty list joins
      to the empty alternative `(?:)`, which matches anywhere. */
  function PrefixAlternatives(prefixes: Option<seq<string>>, mention: Option<nat>): (alts: seq<string>)
    ensures |alts| >= 1 && |alts| >= |prefixes.GetOr([])| + (if mention.Some? then 2 else 0)
    ensures prefixes.GetOr([]) != [] ==> alts[..|prefixes.GetOr([])|] == prefixes.GetOr([])
    ensures mention.None? && prefixes.GetOr([]) != [] ==> alts == prefixes.GetOr([])
    ensures mention.None? && prefixes.GetOr([]) == [] ==> alts == [""]
    ensures mention.Some? ==> alts[|alts| - 2..] == Mentions(mention.value)
  {
    var listed := prefixes.GetOr([]) + (if mention.Some? then Mentions(mention.value) else []);
    if listed == [] then [""] else listed
  }

  /** The first alternative, from index `k` on, that occurs at `i`. */
  function FirstAlternative(s: string, i: nat, alts: seq<string>, k: nat): (r: Option<nat>)
    ensures r.Some? ==> k <= r.value < |alts| && OccursAt(s, i, alts[r.value])
    ensures r.Some? ==> forall m :: k <= m < r.value ==> !OccursAt(s, i, alts[m])
    ensures r.None? ==> forall m :: k <= m < |alts| ==> !OccursAt(s, i, alts[m])
    decreases |alts| - k
  {
    if k >= |alts| then None
    else if OccursAt(s, i, alts[k]) then Some(k)
    else FirstAlternative(s, i, alts, k + 1)
  }

  /** `prefix_re.search`: the leftmost position at or after `i` where some alternative occurs,
      with the first alternative in list order that occurs there. */
  function FindPrefix(s: string, alts: seq<string>, i: nat): (r: Option<(nat, nat)>)
    requires i <= |s|
    ensures r.Some? ==> i <= r.value.0 <= |s| && r.value.1 < |alts| && OccursAt(s, r.value.0, alts[r.value.1])
    ensures r.Some? ==> forall m :: 0 <= m < r.value.1 ==> !OccursAt(s, r.value.0, alts[m])
    ensures r.Some? ==> forall j, m :: i <= j < r.value.0 && 0 <= m < |alts| ==> !OccursAt(s, j, alts[m])
    ensures r.None? ==> forall j, m :: i <= j <= |s| && 0 <= m < |alts| ==> !OccursAt(s, j, alts[m])
    decreases |s| - i
  {
    match FirstAlternative(s, i, alts, 0)
    case Some(k) => Some((i, k))
    case None => if i == |s| then None else FindPrefix(s, alts, i + 1)
  }

  /** `match[0]`: the text of the message at the match, the prefix as written in the message
      followed by all the whitespace after it (`\s*` is greedy). */
  function MatchText(s: string, i: nat, p: string): (m: string)
    requires OccursAt(s, i, p)
    ensures |p| <= |m| && i + |m| <= |s|
    ensures forall c :: 0 <= c < |p| ==> Fold(m[c]) == Fold(p[c])
    ensures forall c :: |p| <= c < |m| ==> IsSpace(m[c])
    ensures i + |m| < |s| ==> !IsSpace(s[i + |m|])
    ensures m == s[i..i + |m|]
  {
    s[i..RunEnd(s, i + |p|, IsSpace)]
  }

  /** `get_prefix_`: the matched text, or the fallback when no alternative occurs. */
  function PrefixFor(content: string, prefixes: Option<seq<string>>, mention: Option<nat>, fallback: string): string {
    var alts := PrefixAlternatives(prefixes, mention);
    match FindPrefix(content, alts, 0)
    case Some(hit) => MatchText(content, hit.0, alts[hit.1])
    case None => fallback
  }

  /** The fallback is returned exactly when no alternative occurs anywhere in the message. */
  lemma PrefixFallback(content: string, prefixes: Option<seq<string>>, mention: Option<nat>)
    ensures FindPrefix(content, PrefixAlternatives(prefixes, mention), 0).None?
        <==> forall j, m :: 0 <= j <= |content| && 0 <= m < |PrefixAlternatives(prefixes, mention)| ==>
               !OccursAt(content, j, PrefixAlternatives(prefixes, mention)[m])
  {
    var alts := PrefixAlternatives(prefixes, mention);
    var r := FindPrefix(content, alts, 0);
    if r.Some? {
      assert OccursAt(content, r.value.0, alts[r.value.1]);
    }
  }

  lemma OccursAtStart(p: string, rest: string)
    ensures OccursAt(p + rest, 0, p)
  {
    assert forall c :: 0 <= c < |p| ==> (p + rest)[c] == p[c];
  }

  /** Once ready, a message that opens with the bot's mention, and with none of the configured
      prefixes, gets the mention (and the whitespace after it) as its prefix. */
  lemma MentionIsPrefix(content: string, prefixes: seq<string>, id: nat, rest: string, fallback: string)
    requires content == "<@" + NatToString(id) + ">" + rest
    requires forall m :: 0 <= m < |prefixes| ==> !OccursAt(content, 0, prefixes[m])
    ensures var p := PrefixFor(content, Some(prefixes), Some(id), fallback);
      |Mentions(id)[0]| <= |p| <= |content| && p == content[..|p|] && p[..|Mentions(id)[0]|] == Mentions(id)[0]
  {
    var alts := PrefixAlternatives(Some(prefixes), Some(id));
    var mention := Mentions(id)[0];
    assert content == mention + rest;
    assert alts[|prefixes|] == mention;
    OccursAtStart(mention, rest);
    var k := FirstAlternative(content, 0, alts, 0);
    assert k == Some(|prefixes|);
    var p := PrefixFor(content, Some(prefixes), Some(id), fallback);
    assert p == content[..|p|];
    assert content[..|mention|] == mention;
  }

  /** Before the bot is ready the mentions are no prefixes: with configured prefixes none of which
      occurs, the fallback is returned even for a message that opens with the mention. */
  lemma NoMentionBeforeReady(content: string, prefixes: seq<string>, fallback: string)
    requires prefixes != []
    requires forall j, m :: 0 <= j <= |content| && 0 <= m < |prefixes| ==> !OccursAt(content, j, prefixes[m])
    ensures PrefixFor(content, Some(prefixes), None, fallback) == fallback
  {
  }

  /** With no prefixes configured and the bot not ready, the pattern is `(?:)\s*`: every message
      matches at its start, and the prefix is its leading whitespace. */
  lemma NoPrefixesMatchLeadingSpace(content: string, prefixes: Option<seq<string>>, fallback: string)
    requires prefixes.GetOr([]) == []
    ensures var p := PrefixFor(content, prefixes, None, fallback);
      |p| <= |content| && p == content[..|p|] && (forall c :: 0 <= c < |p| ==> IsSpace(p[c])) && (|p| < |content| ==> !IsSpace(content[|p|]))
  {
    assert PrefixAlternatives(prefixes, None) == [""];
    assert OccursAt(content, 0, "");
  }

  // ---------------------------------------------------------------- configuration

  /** A `success_emojis` value: the text given in the configuration, or the emoji it became. */
  datatype EmojiSetting = Raw(text: string) | Converted(emoji: PartialEmoji)

  /** Override ids: a list or tuple as configured, or the set `process_config` makes of it. */
  datatype Ids = IdList(items: seq<nat>) | IdSet(members: set<nat>)

  /** `id in ids`, for either form. */
  predicate Contains(ids: Ids, id: nat) {
    match ids
    case IdList(items) => id in items
    case IdSet(members) => id in members
  }

  /** `set(ids)`. */
  function ToSet(ids: Ids): (r: set<nat>)
    ensures forall id :: id in r <==> Contains(ids, id)
  {
    match ids
    case IdList(items) => set id | id in items
    case IdSet(members) => members
  }

  /** The `overrides` dictionary; an absent key is `None`. */
  datatype Overrides = Overrides(guilds: Option<Ids>, channels: Option<Ids>)

  /** The `ignore_bots` dictionary. */
  datatype IgnoreBots = IgnoreBots(default: Option<bool>, overrides: Option<Overrides>)

  /** The keys of the bot's configuration this module reads. */
  datatype Config = Config(successEmojis: Option<map<bool, EmojiSetting>>, ignoreBots: Option<IgnoreBots>,
                           prefixes: Option<seq<string>>)

  const DefaultEmojis: map<bool, EmojiSetting> := map[false := Raw("❌"), true := Raw("✅")]

  /** `convert_emoji` needs text: the emojis have not been converted yet. */
  predicate Unconverted(c: Config) {
    c.successEmojis.Some? ==> forall k :: k in c.successEmojis.value ==> c.successEmojis.value[k].Raw?
  }

  /** The emoji map after processing: the same keys as configured (or the defaults), each value
      converted from its text. */
  predicate EmojisProcessed(before: Option<map<bool, EmojiSetting>>, after: map<bool, EmojiSetting>) {
    var src := before.GetOr(DefaultEmojis);
    after.Keys == src.Keys &&
    forall k :: k in src ==> src[k].Raw? && after[k] == Converted(ConvertEmoji(src[k].text))
  }

  /** The `ignore_bots` settings after processing: a present default is kept and an absent one
      becomes true; the override ids become sets, empty when absent. */
  predicate IgnoreBotsProcessed(before: Option<IgnoreBots>, after: IgnoreBots) {
    var ib := before.GetOr(IgnoreBots(None, None));
    var ov := ib.overrides.GetOr(Overrides(None, None));
    after.default == Some(ib.default.GetOr(true)) &&
    after.overrides.Some? &&
    after.overrides.value.guilds == Some(IdSet(ToSet(ov.guilds.GetOr(IdList([]))))) &&
    after.overrides.value.channels == Some(IdSet(ToSet(ov.channels.GetOr(IdList([])))))
  }

  /** Everything the message rules index is present. */
  predicate Processed(c: Config) {
    c.successEmojis.Some? && c.ignoreBots.Some? && c.ignoreBots.value.default.Some? &&
    c.ignoreBots.value.overrides.Some? &&
    c.ignoreBots.value.overrides.value.guilds.Some? && c.ignoreBots.value.overrides.value.channels.Some?
  }

  /** A configured default is never overwritten, and configured override ids keep their members. */
  lemma ProcessingKeepsPresentValues(before: IgnoreBots, after: IgnoreBots, id: nat)
    requires IgnoreBotsProcessed(Some(before), after)
    ensures before.default.Some? ==> after.default == before.default
    ensures before.default.None? ==> after.default == Some(true)
    ensures before.overrides.Some? && before.overrides.value.guilds.Some? ==>
      (Contains(after.overrides.value.guilds.value, id) <==> Contains(before.overrides.value.guilds.value, id))
    ensures before.overrides.Some? && before.overrides.value.channels.Some? ==>
      (Contains(after.overrides.value.channels.value, id) <==> Contains(before.overrides.value.channels.value, id))
  {
  }

  /** Absent override lists contain nothing. */
  lemma ProcessingEmptyOverrides(before: Option<IgnoreBots>, after: IgnoreBots, id: nat)
    requires IgnoreBotsProcessed(before, after)
    requires before.None? || before.value.overrides.None?
    ensures !Contains(after.overrides.value.guilds.value, id) && !Contains(after.overrides.value.channels.value, id)
  {
  }

  /** Without configured emojis, the failure and success reactions are the plain ❌ and ✅. */
  lemma DefaultEmojisConverted(after: map<bool, EmojiSetting>)
    requires EmojisProcessed(None, after)
    ensures after == map[false := Converted(PartialEmoji(None, "❌", None)), true := Converted(PartialEmoji(None, "✅", None))]
  {
    ConvertEmojiFallback("❌");
    ConvertEmojiFallback("✅");
  }

  // ---------------------------------------------------------------- should_reply_to_bot

  /** The parts of a message the rules read; `guild` is absent in direct messages. */
  datatype Message = Message(author: nat, authorIsBot: bool, guild: Option<nat>, channel: Option<nat>, content: string)

  /** `check_override`: a present location whose id is listed. */
  predicate OverrideHit(location: Option<nat>, ids: Ids) {
    location.Some? && Contains(ids, location.value)
  }

  /** `should_reply_to_bot`: answer bots unless ignoring them is the default, the answer being
      flipped once when the guild or the channel is listed as an override. */
  function ShouldReplyToBot(ib: IgnoreBots, m: Message): (r: bool)
    requires ib.overrides.Some? && ib.overrides.value.guilds.Some? && ib.overrides.value.channels.Some?
  {
    var shouldReply := ib.default != Some(true);
    var ov := ib.overrides.value;
    if OverrideHit(m.guild, ov.guilds.value) || OverrideHit(m.channel, ov.channels.value) then !shouldReply
    else shouldReply
  }

  /** Listing the message's guild flips the decision, unless its channel already did. */
  lemma GuildOverrideFlips(default: Option<bool>, guilds: set<nat>, channels: Ids, m: Message)
    requires m.guild.Some? && m.guild.value !in guilds
    requires !OverrideHit(m.channel, channels)
    ensures ShouldReplyToBot(IgnoreBots(default, Some(Overrides(Some(IdSet(guilds + {m.guild.value})), Some(channels)))), m)
        == !ShouldReplyToBot(IgnoreBots(default, Some(Overrides(Some(IdSet(guilds)), Some(channels)))), m)
  {
  }

  /** Being listed both as a guild and as a channel flips the decision only once. */
  lemma BothOverridesFlipOnce(ib: IgnoreBots, m: Message)
    requires ib.overrides.Some? && ib.overrides.value.guilds.Some? && ib.overrides.value.channels.Some?
    requires OverrideHit(m.guild, ib.overrides.value.guilds.value) && OverrideHit(m.channel, ib.overrides.value.channels.value)
    ensures ShouldReplyToBot(ib, m) == (ib.default == Some(true))
  {
  }

  /** A message with neither guild nor channel is never overridden. */
  lemma NoLocationNoOverride(ib: IgnoreBots, m: Message)
    requires ib.overrides.Some? && ib.overrides.value.guilds.Some? && ib.overrides.value.channels.Some?
    requires m.guild.None? && m.channel.None?
    ensures ShouldReplyToBot(ib, m) == (ib.default != Some(true))
  {
  }

  // ---------------------------------------------------------------- the bot

  /** The bot's state as these rules see it: its configuration (processed in place), whether it is
      ready, its own user id once logged in, the random fallback prefix and its activity. */
  class Bot {
    var config: Config
    var ready: bool
    var user: Option<nat>
    var fallbackPrefix: string
    var activity: Option<string>

    predicate Valid()
      reads this
    {
      Processed(config) && (ready ==> user.Some?)
    }

    /** `__init__`: store and process the configuration, draw the fallback prefix (a random UUID,
        taken as a parameter) and set the initial activity. */
    constructor(config: Config, fallback: string)
      requires Unconverted(config)
      ensures Valid() && !ready && user.None? && fallbackPrefix == fallback
      ensures this.config.prefixes == config.prefixes
      ensures EmojisProcessed(config.successEmojis, this.config.successEmojis.value)
      ensures IgnoreBotsProcessed(config.ignoreBots, this.config.ignoreBots.value)
      ensures activity == InitialActivity()
    {
      this.config := config;
      ready := false;
      user := None;
      fallbackPrefix := fallback;
      activity := None;
      new;
      ProcessConfig();
      activity := InitialActivity();
    }

    /** `process_config`: fill in the defaults in place without overwriting present values. */
    method ProcessConfig()
      modifies this
      requires Unconverted(config)
      ensures Processed(config)
      ensures config.prefixes == old(config.prefixes)
      ensures EmojisProcessed(old(config.successEmojis), config.successEmojis.value)
      ensures IgnoreBotsProcessed(old(config.ignoreBots), config.ignoreBots.value)
      ensures ready == old(ready) && user == old(user) && fallbackPrefix == old(fallbackPrefix) && activity == old(activity)
    {
      var emojis := config.successEmojis.GetOr(DefaultEmojis);
      var converted := map k | k in emojis :: Converted(ConvertEmoji(emojis[k].text));
      config := config.(successEmojis := Some(converted));

      var ib := config.ignoreBots.GetOr(IgnoreBots(None, None));
      ib := ib.(default := Some(ib.default.GetOr(true)));
      var ov := ib.overrides.GetOr(Overrides(None, None));
      ov := ov.(guilds := Some(ov.guilds.GetOr(IdList([]))));
      ov := ov.(channels := Some(ov.channels.GetOr(IdList([]))));
      ov := ov.(guilds := Some(IdSet(ToSet(ov.guilds.value))));
      ov := ov.(channels := Some(IdSet(ToSet(ov.channels.value))));
      config := config.(ignoreBots := Some(ib.(overrides := Some(ov))));
    }

    /** `initial_activity`: a game named after the first prefix, if there is one. */
    function InitialActivity(): (game: Option<string>)
      reads this
      ensures game.None? <==> config.prefixes.GetOr([]) == []
      ensures game.Some? ==> game.value == config.prefixes.value[0] + "help"
    {
      match config.prefixes
      case None => None
      case Some(prefixes) => if prefixes != [] then Some(prefixes[0] + "help") else None
    }

    /** `on_ready`: the bot has logged in as `id`; the activity is set again. */
    method BecomeReady(id: nat)
      modifies this
      requires Valid()
      ensures Valid() && ready && user == Some(id)
      ensures config == old(config) && fallbackPrefix == old(fallbackPrefix)
      ensures activity == InitialActivity()
    {
      user := Some(id);
      ready := true;
      activity := InitialActivity();
    }

    /** `get_prefix_`: the mention prefixes take part only once the bot is ready. */
    function GetPrefix(m: Message): (r: string)
      reads this
      requires Valid()
      ensures !ready ==> r == PrefixFor(m.content, config.prefixes, None, fallbackPrefix)
      ensures ready ==> r == PrefixFor(m.content, config.prefixes, Some(user.value), fallbackPrefix)
    {
      PrefixFor(m.content, config.prefixes, if ready then user else None, fallbackPrefix)
    }

    /** `should_reply`: never to itself, always to other humans, and to other bots as
        `should_reply_to_bot` decides. */
    function ShouldReply(m: Message): (r: bool)
      reads this
      requires Valid()
      ensures user == Some(m.author) ==> !r
      ensures user != Some(m.author) && !m.authorIsBot ==> r
      ensures user != Some(m.author) && m.authorIsBot ==> r == ShouldReplyToBot(config.ignoreBots.value, m)
    {
      !(user == Some(m.author) || (m.authorIsBot && !ShouldReplyToBot(config.ignoreBots.value, m)))
    }
  }
}
