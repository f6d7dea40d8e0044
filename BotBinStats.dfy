/** The decision rules of the bot list statistics cog in bot_bin/stats.py: which bot lists are
    configured, where and what is posted to them, when the owners hear about the guild count, and
    how the `send-stats` command reports the outcome. The HTTP requests and Discord calls
    themselves are not modelled. */
module BotBinStats {
  import opened Wrappers
  import opened Seqs
  import opened Text
  import PyInt

  // ---------------------------------------------------------------- API_FORMATS

  /** A URL template `https://host/path`; the path holds the placeholder `{}` for the bot's
      user id. */
  datatype Template = Template(host: string, path: string) {
    function Url(): string {
      "https://" + host + "/" + path
    }
  }

  /** The bot lists' URL templates, in the source's order. */
  const Templates: seq<Template> := [
    Template("discord.bots.gg", "api/v1/bots/{}/stats"),
    Template("top.gg", "api/bots/{}/stats"),
    Template("discordbots.org", "api/bots/{}/stats"),
    Template("botsfordiscord.com", "api/bot/{}"),
    Template("discord.boats", "api/v2/bot/{}")
  ]

  /** `urlparse(url).netloc` for an `https://host/path` URL: the host. */
  function Netloc(url: string): string {
    if |url| >= 8 && url[..8] == "https://" then
      var rest := url[8..];
      rest[..IndexOf(rest, '/')]
    else ""
  }

  /** The network location of a template is its host. */
  lemma NetlocOfUrl(t: Template)
    requires '/' !in t.host
    ensures Netloc(t.Url()) == t.host
  {
    var url := t.Url();
    assert url[..8] == "https://";
    assert url[8..] == t.host + ['/'] + t.path;
    IndexOfSplit(t.host, '/', t.path);
  }

  /** `API_FORMATS`: each template's URL keyed by its network location, in insertion order. */
  function ApiFormats(): (formats: seq<(string, string)>)
    ensures |formats| == |Templates|
    ensures forall i :: 0 <= i < |formats| ==> formats[i] == (Netloc(Templates[i].Url()), Templates[i].Url())
  {
    seq(|Templates|, i requires 0 <= i < |Templates| => (Netloc(Templates[i].Url()), Templates[i].Url()))
  }

  /** The keys of `API_FORMATS`, the names under which the tokens are configured. */
  function ApiKeys(): (keys: seq<string>)
    ensures |keys| == |ApiFormats()|
    ensures forall i :: 0 <= i < |keys| ==> keys[i] == ApiFormats()[i].0
  {
    seq(|ApiFormats()|, i requires 0 <= i < |ApiFormats()| => ApiFormats()[i].0)
  }

  predicate Plain(s: string) {
    '/' !in s && '{' !in s
  }

  /** No host holds a `/` or a `{`. */
  lemma HostIsPlain(i: nat)
    requires i < |Templates|
    ensures Plain(Templates[i].host)
  {
    if i == 0 {
      PlainHost("discord", "bots.gg");
    } else if i == 1 {
      PlainHost("top", "gg");
    } else if i == 2 {
      PlainHost("discordbots", "org");
    } else if i == 3 {
      PlainHost("botsfordiscord", "com");
    } else {
      PlainHost("discord", "boats");
    }
  }

  /** A host `name.domain` built of plain parts is plain. */
  lemma PlainHost(name: string, domain: string)
    requires Plain(name) && Plain(domain)
    ensures Plain(name + "." + domain)
  {
    var h := name + "." + domain;
    assert forall k :: 0 <= k < |h| ==> h[k] in name || h[k] == '.' || h[k] in domain;
  }

  /** The five hosts differ: by length, except the two of length 15, which differ at index 7. */
  lemma HostsDistinct(i: nat, j: nat)
    requires i < j < |Templates|
    ensures Templates[i].host != Templates[j].host
  {
    var h := [Templates[0].host, Templates[1].host, Templates[2].host, Templates[3].host, Templates[4].host];
    assert |h[0]| == 15 && |h[1]| == 6 && |h[2]| == 15 && |h[3]| == 18 && |h[4]| == 13;
    assert h[0][7] == '.' && h[2][7] == 'b';
    assert Templates[i].host == h[i] && Templates[j].host == h[j];
  }

  /** Each key is the host of its template, and the five hosts differ, so the dictionary has five
      entries. */
  lemma ApiKeysAreTheHosts()
    ensures |ApiKeys()| == 5
    ensures forall i :: 0 <= i < 5 ==> ApiKeys()[i] == Templates[i].host
    ensures forall i, j :: 0 <= i < j < |ApiKeys()| ==> ApiKeys()[i] != ApiKeys()[j]
  {
    forall i | 0 <= i < 5
      ensures ApiKeys()[i] == Templates[i].host
    {
      HostIsPlain(i);
      NetlocOfUrl(Templates[i]);
    }
    forall i, j | 0 <= i < j < 5
      ensures ApiKeys()[i] != ApiKeys()[j]
    {
      HostsDistinct(i, j);
    }
  }

  /** The position of `key` among the keys of `formats`: the first, or `|formats|` if absent. */
  function KeyIndex(formats: seq<(string, string)>, key: string): (i: nat)
    ensures i <= |formats|
    ensures i < |formats| ==> formats[i].0 == key
    ensures forall j :: 0 <= j < i ==> formats[j].0 != key
    decreases |formats|
  {
    if formats == [] then 0 else if formats[0].0 == key then 0 else 1 + KeyIndex(formats[1..], key)
  }

  /** `API_FORMATS[key]`, `None` standing for the `KeyError` of a missing key. */
  function Lookup(formats: seq<(string, string)>, key: string): Option<string> {
    var i := KeyIndex(formats, key);
    if i < |formats| then Some(formats[i].1) else None
  }

  // ---------------------------------------------------------------- configured_apis

  /** The `tokens.stats` configuration: a present key may still hold `None`. */
  type StatsConfig = map<string, Option<string>>

  predicate Present(config: StatsConfig, key: string) {
    key in config && config[key].Some?
  }

  /** `configured_apis`: the keys of `API_FORMATS` whose token is present and not `None`. */
  function ConfiguredApis(config: StatsConfig): seq<string> {
    Filter(ApiKeys(), key => Present(config, key))
  }

  /** A bot list is posted to exactly when its token is configured, in `API_FORMATS` order. */
  lemma ConfiguredApisExactly(config: StatsConfig)
    ensures forall i :: 0 <= i < |ConfiguredApis(config)| ==>
      ConfiguredApis(config)[i] in ApiKeys() && Present(config, ConfiguredApis(config)[i])
    ensures forall i :: 0 <= i < |ApiKeys()| && Present(config, ApiKeys()[i]) ==> ApiKeys()[i] in ConfiguredApis(config)
    ensures IsSubsequence(ConfiguredApis(config), ApiKeys())
  {
    FilterMembers(ApiKeys(), key => Present(config, key));
    FilterIsSubsequence(ApiKeys(), key => Present(config, key));
  }

  // ---------------------------------------------------------------- post

  /** The first position of the placeholder `{}` in `t`, or `|t|`. */
  function Placeholder(t: string): (i: nat)
    ensures i <= |t|
    ensures i < |t| ==> i + 1 < |t| && t[i] == '{' && t[i + 1] == '}'
    ensures forall j :: 0 <= j < i && j + 1 < |t| ==> !(t[j] == '{' && t[j + 1] == '}')
    decreases |t|
  {
    if |t| < 2 then |t|
    else if t[0] == '{' && t[1] == '}' then 0
    else 1 + Placeholder(t[1..])
  }

  /** `t.format(v)` for a template with one placeholder. */
  function Substitute(t: string, v: string): string {
    var i := Placeholder(t);
    if i < |t| then t[..i] + v + t[i + 2..] else t
  }

  /** The value takes the place of the first `{}`. */
  lemma SubstituteSplit(pre: string, post: string, v: string)
    requires forall j :: 0 <= j < |pre| ==> pre[j] != '{'
    ensures Substitute(pre + "{}" + post, v) == pre + v + post
  {
    var t := pre + "{}" + post;
    assert t[|pre|] == '{' && t[|pre| + 1] == '}';
    assert forall j :: 0 <= j < |pre| ==> t[j] == pre[j];
    assert Placeholder(t) == |pre|;
    assert t[..|pre|] == pre;
    assert t[|pre| + 2..] == post;
  }

  /** The URL posted to for `key`, or `None` for a key `API_FORMATS` lacks (a `KeyError`). */
  function RequestUrl(key: string, userId: nat): Option<string> {
    match Lookup(ApiFormats(), key)
    case Some(t) => Some(Substitute(t, NatToString(userId)))
    case None => None
  }

  /** The user id takes the place of the placeholder in the template's path. */
  lemma SubstituteInPath(t: Template, pre: string, post: string, v: string)
    requires t.path == pre + "{}" + post
    requires '{' !in t.host && '{' !in pre
    ensures Substitute(t.Url(), v) == "https://" + t.host + "/" + pre + v + post
  {
    var head := "https://" + t.host + "/" + pre;
    assert t.Url() == head + "{}" + post;
    assert forall j :: 0 <= j < |head| ==> head[j] != '{';
    SubstituteSplit(head, post, v);
  }

  /** A host is found at its own position among the keys. */
  lemma KeyIndexOfHost(i: nat)
    requires i < |Templates|
    ensures KeyIndex(ApiFormats(), Templates[i].host) == i
  {
    ApiKeysAreTheHosts();
    var k := KeyIndex(ApiFormats(), Templates[i].host);
    assert ApiFormats()[i].0 == ApiKeys()[i];
  }

  /** The URL for a configured key is its template with the user id substituted. */
  lemma RequestUrlOfKey(i: nat, userId: nat, pre: string, post: string)
    requires i < |Templates|
    requires Templates[i].path == pre + "{}" + post && '{' !in pre
    ensures RequestUrl(Templates[i].host, userId)
         == Some("https://" + Templates[i].host + "/" + pre + NatToString(userId) + post)
  {
    KeyIndexOfHost(i);
    HostIsPlain(i);
    SubstituteInPath(Templates[i], pre, post, NatToString(userId));
  }

  /** `json.dumps({'server_count': count})`. */
  function Payload(count: nat): string {
    "{\"server_count\": " + NatToString(count) + "}"
  }

  /** The count can be read back from the payload. */
  lemma PayloadCarriesCount(count: nat)
    ensures var p := Payload(count); var n := |NatToString(count)|;
      |p| == 18 + n && p[..17] == "{\"server_count\": " && p[17 + n] == '}' && DigitsValue(p[17..17 + n]) == count
  {
    var p := Payload(count);
    var n := |NatToString(count)|;
    assert p[17..17 + n] == NatToString(count);
    DigitsValueOfNatToString(count);
  }

  /** `resp.status in range(200, 300)`. */
  predicate Is2xx(status: int) {
    200 <= status < 300
  }

  // ---------------------------------------------------------------- notify_owners

  /** `notify_owners` goes on to message the owners: the count is above 4 and `n & (n - 1)` is 0. */
  predicate NotifiesOwners(guildCount: int) {
    !(guildCount <= 4 || PyInt.BitAnd(guildCount, guildCount - 1) != 0)
  }

  /** The powers of two below 2^3 are at most 4. */
  lemma SmallPowers(k: nat)
    ensures k < 3 ==> PyInt.Pow2(k) <= 4
  {
    assert PyInt.Pow2(0) == 1 && PyInt.Pow2(1) == 2 && PyInt.Pow2(2) == 4;
  }

  lemma BigPowerOfTwo(n: int)
    requires n > 4 && PyInt.IsPowerOfTwo(n)
    ensures exists k: nat :: k >= 3 && n == PyInt.Pow2(k)
  {
    var k: nat :| n == PyInt.Pow2(k);
    SmallPowers(k);
    assert k >= 3 && n == PyInt.Pow2(k);
  }

  lemma PowerOfTwoFromThree(k: nat)
    requires k >= 3
    ensures PyInt.Pow2(k) > 4
  {
    if k > 3 {
      PowerOfTwoFromThree(k - 1);
    }
  }

  /** The owners hear of the counts 8, 16, 32, … and of no other. */
  lemma NotifiesOwnersAtPowersOfTwo(n: int)
    ensures NotifiesOwners(n) <==> exists k: nat :: k >= 3 && n == PyInt.Pow2(k)
  {
    PyInt.BitTrickIsPowerOfTwo(n);
    if NotifiesOwners(n) {
      BigPowerOfTwo(n);
    }
    if exists k: nat :: k >= 3 && n == PyInt.Pow2(k) {
      var k: nat :| k >= 3 && n == PyInt.Pow2(k);
      PowerOfTwoFromThree(k);
      assert PyInt.IsPowerOfTwo(n);
    }
  }

  function OwnerMessage(guildCount: nat): string {
    "Guild count (" + NatToString(guildCount) + ") is a power of 2!"
  }

  // ---------------------------------------------------------------- send_command

  /** One bot list's answer: its key, the HTTP status and the response text. */
  datatype Status = Status(key: string, status: int, text: string)

  predicate Succeeded(s: Status) {
    Is2xx(s.status)
  }

  predicate Failed(s: Status) {
    !Is2xx(s.status)
  }

  /** The loop of `send_command` that sorts the answers into `succeeded` and `failed`. */
  method Partition(statuses: seq<Status>) returns (succeeded: seq<Status>, failed: seq<Status>)
    ensures succeeded == Filter(statuses, Succeeded)
    ensures failed == Filter(statuses, Failed)
  {
    succeeded, failed := [], [];
    for i := 0 to |statuses|
      invariant succeeded == Filter(statuses[..i], Succeeded)
      invariant failed == Filter(statuses[..i], Failed)
    {
      var s := statuses[i];
      assert statuses[..i + 1] == statuses[..i] + [s];
      FilterAppend(statuses[..i], [s], Succeeded);
      FilterAppend(statuses[..i], [s], Failed);
      if Is2xx(s.status) {
        succeeded := succeeded + [s];
      } else {
        failed := failed + [s];
      }
    }
    assert statuses[..|statuses|] == statuses;
  }

  /** Every answer lands in exactly one of the two lists, each list keeping the order of the answers. */
  lemma PartitionIsExact(statuses: seq<Status>)
    ensures multiset(Filter(statuses, Succeeded)) + multiset(Filter(statuses, Failed)) == multiset(statuses)
    ensures IsSubsequence(Filter(statuses, Succeeded), statuses) && IsSubsequence(Filter(statuses, Failed), statuses)
    ensures forall i :: 0 <= i < |Filter(statuses, Succeeded)| ==> Is2xx(Filter(statuses, Succeeded)[i].status)
    ensures forall i :: 0 <= i < |Filter(statuses, Failed)| ==> !Is2xx(Filter(statuses, Failed)[i].status)
  {
    FilterComplement(statuses, Succeeded, Failed);
    FilterIsSubsequence(statuses, Succeeded);
    FilterIsSubsequence(statuses, Failed);
    FilterMembers(statuses, Succeeded);
    FilterMembers(statuses, Failed);
  }

  /** `format(apis)`: a bullet per answer with its status in bold and the shortened response
      text; `shorten` stands for `textwrap.shorten(text, 150)`. */
  function FormatApis(apis: seq<Status>, shorten: string -> string): string {
    Join(seq(|apis|, i requires 0 <= i < |apis| =>
      "• " + apis[i].key + ": **" + IntToString(apis[i].status) + "**\n" + shorten(apis[i].text)), "\n")
  }

  const SucceededHeading := "The following APIs succeeded:\n"
  const FailedHeading := "The following APIs failed:\n"
  const NoApisText := "No APIs are currently configured. " + "Please double check that `bot.config['tokens']['stats']` is correctly set."

  /** The reply of `send-stats` (reactions added to the command message, text sent). */
  datatype Reply = Reply(reactions: seq<string>, text: string)

  /** The reactions exactly as `send_command` adds them: ✅ whenever nothing failed, then ❌ or ✅
      again at the end. */
  function ReactionsAsWritten(succeeded: seq<Status>, failed: seq<Status>): seq<string> {
    (if failed == [] then ["✅"] else []) +
    (if succeeded == [] && failed == [] then ["❌"] else if failed != [] then ["❌"] else ["✅"])
  }

  /** With no bot list configured the command message gets both a ✅ and a ❌. */
  lemma NoApisReactsBoth()
    ensures ReactionsAsWritten([], []) == ["✅", "❌"]
  {
  }

  /** The reaction evidently intended: one ✅ when every configured list succeeded, otherwise one ❌. */
  function Reaction(succeeded: seq<Status>, failed: seq<Status>): (r: string)
    ensures r == "✅" <==> succeeded != [] && failed == []
    ensures r == "✅" || r == "❌"
  {
    if failed == [] && succeeded != [] then "✅" else "❌"
  }

  /** Where the source adds one reaction, the intended one agrees with it. */
  lemma ReactionAgreesWhenSome(succeeded: seq<Status>, failed: seq<Status>)
    requires succeeded != [] || failed != []
    ensures Reaction(succeeded, failed) == ReactionsAsWritten(succeeded, failed)[|ReactionsAsWritten(succeeded, failed)| - 1]
    ensures failed != [] ==> ReactionsAsWritten(succeeded, failed) == [Reaction(succeeded, failed)]
  {
  }

  /** `send_command` after the statuses are in: partition them, build the message section by
      section, and react. */
  method SendCommand(statuses: seq<Status>, shorten: string -> string) returns (reply: Reply)
    ensures reply.reactions == [Reaction(Filter(statuses, Succeeded), Filter(statuses, Failed))]
    ensures reply.text == ReplyText(Filter(statuses, Succeeded), Filter(statuses, Failed), shorten)
    ensures Filter(statuses, Failed) != [] ==> reply.reactions == ReactionsAsWritten(Filter(statuses, Succeeded), Filter(statuses, Failed))
  {
    var succeeded, failed := Partition(statuses);
    if failed != [] {
      ReactionAgreesWhenSome(succeeded, failed);
    }
    var message: seq<string> := [];
    if succeeded != [] {
      message := message + [SucceededHeading + FormatApis(succeeded, shorten)];
    }
    if failed != [] {
      message := message + [FailedHeading + FormatApis(failed, shorten)];
    }
    if message == [] {
      return Reply(["❌"], NoApisText);
    }
    reply := Reply([if failed != [] then "❌" else "✅"], Join(message, "\n\n"));
  }

  /** The text of the reply: the successes section, then the failures section, a blank line
      between them; the "no APIs" notice when there is neither. */
  function ReplyText(succeeded: seq<Status>, failed: seq<Status>, shorten: string -> string): string {
    var sections := (if succeeded != [] then [SucceededHeading + FormatApis(succeeded, shorten)] else [])
                  + (if failed != [] then [FailedHeading + FormatApis(failed, shorten)] else []);
    if sections == [] then NoApisText else Join(sections, "\n\n")
  }

  /** With answers of both kinds the successes come first, a blank line before the failures. */
  lemma ReplyTextBothSections(succeeded: seq<Status>, failed: seq<Status>, shorten: string -> string)
    requires succeeded != [] && failed != []
    ensures ReplyText(succeeded, failed, shorten)
         == SucceededHeading + FormatApis(succeeded, shorten) + "\n\n" + FailedHeading + FormatApis(failed, shorten)
  {
    var a := SucceededHeading + FormatApis(succeeded, shorten);
    var b := FailedHeading + FormatApis(failed, shorten);
    assert [a] + [b] == [a, b];
    assert [a, b][1..] == [b];
    assert Join([a, b], "\n\n") == a + "\n\n" + b;
  }

  lemma SectionStartsWithT(heading: string, body: string)
    requires heading == SucceededHeading || heading == FailedHeading
    ensures |heading + body| >= 1 && (heading + body)[0] == 'T'
  {
  }

  lemma NoticeStartsWithN()
    ensures |NoApisText| >= 1 && NoApisText[0] == 'N'
  {
  }

  /** The notice is sent exactly when there were no answers at all. */
  lemma ReplyTextNotice(statuses: seq<Status>, shorten: string -> string)
    ensures ReplyText(Filter(statuses, Succeeded), Filter(statuses, Failed), shorten) == NoApisText
        <==> statuses == []
  {
    PartitionIsExact(statuses);
    var ok := Filter(statuses, Succeeded);
    var bad := Filter(statuses, Failed);
    if statuses != [] {
      assert statuses[0] in multiset(statuses);
      assert ok != [] || bad != [];
      var sections := (if ok != [] then [SucceededHeading + FormatApis(ok, shorten)] else [])
                    + (if bad != [] then [FailedHeading + FormatApis(bad, shorten)] else []);
      if ok != [] {
        SectionStartsWithT(SucceededHeading, FormatApis(ok, shorten));
      } else {
        SectionStartsWithT(FailedHeading, FormatApis(bad, shorten));
      }
      JoinStartsWithFirst(sections, "\n\n");
      assert ReplyText(ok, bad, shorten)[0] == 'T';
      NoticeStartsWithN();
    }
  }
}
