/** The decision rules of the older statistics cog in ben_cogs/stats.py: which of its two bot
    lists are configured, the payload and URL of a post, when a post succeeded, and when the owner
    hears about the guild count. */
module BenCogsStats {
  import opened Wrappers
  import opened Text
  import opened Seqs
  import PyInt
  import BotBinStats

  /** The two bot lists this cog knows, in the order it checks them. */
  const ApiKeys: seq<string> := ["bots.discord.pw", "discordbots.org"]

  /** `_power_of_two(n)`: `n & (n - 1) == 0`. */
  function PowerOfTwo(n: int): (r: bool)
    ensures r <==> n == 0 || PyInt.IsPowerOfTwo(n)
  {
    PyInt.BitTrickIsPowerOfTwo(n);
    PyInt.BitAnd(n, n - 1) == 0
  }

  /** `_notify_owner` messages the owner: more than 4 guilds and a power of two. */
  predicate NotifiesOwner(guildCount: int) {
    guildCount > 4 && PowerOfTwo(guildCount)
  }

  /** Zero passes the test too, but the threshold keeps it out: the owner hears of exactly the
      counts at which the newer cog notifies its owners. */
  lemma NotifiesOwnerAgrees(n: int)
    ensures PowerOfTwo(0)
    ensures NotifiesOwner(n) <==> BotBinStats.NotifiesOwners(n)
    ensures NotifiesOwner(n) <==> exists k: nat :: k >= 3 && n == PyInt.Pow2(k)
  {
    BotBinStats.NotifiesOwnersAtPowersOfTwo(n);
  }

  /** `resp.status // 100 == 2`. */
  predicate PostSucceeded(status: int) {
    status / 100 == 2
  }

  /** Floor division by 100 picks out exactly the 2xx range the newer cog tests with `range`. */
  lemma PostSucceededIs2xx(status: int)
    ensures PostSucceeded(status) <==> BotBinStats.Is2xx(status)
  {
    if 200 <= status < 300 {
      assert status == 100 * 2 + (status - 200);
    }
  }

  /** `'https://{}/api/bots/{}/stats'.format(config_key, user_id)`. */
  function PostUrl(key: string, userId: nat): string {
    "https://" + key + "/api/bots/" + NatToString(userId) + "/stats"
  }

  /** The host of the URL is the configuration key. */
  lemma PostUrlHost(key: string, userId: nat)
    requires '/' !in key
    ensures BotBinStats.Netloc(PostUrl(key, userId)) == key
  {
    var t := BotBinStats.Template(key, "api/bots/" + NatToString(userId) + "/stats");
    assert PostUrl(key, userId) == t.Url();
    BotBinStats.NetlocOfUrl(t);
  }

  /** `_get_data` as a dictionary, in insertion order: the guild count, then the shard id when
      a shard is given. */
  function Fields(guildCount: nat, shard: Option<int>): (fields: seq<(string, int)>)
    ensures |fields| >= 1 && fields[0] == ("server_count", guildCount)
    ensures |fields| == 2 <==> shard.Some?
    ensures |fields| <= 2 && (shard.Some? ==> fields[1] == ("shard_id", shard.value))
  {
    [("server_count", guildCount)] + (if shard.Some? then [("shard_id", shard.value)] else [])
  }

  /** `json.dumps` of a flat dictionary of integers, with its default `", "` and `": "` separators. */
  function Json(fields: seq<(string, int)>): string {
    "{" + Join(seq(|fields|, i requires 0 <= i < |fields| => Item(fields[i])), ", ") + "}"
  }

  /** One `"key": value` entry. */
  function Item(field: (string, int)): string {
    "\"" + field.0 + "\": " + IntToString(field.1)
  }

  /** `_get_data(shard)`. */
  function GetData(guildCount: nat, shard: Option<int>): string {
    Json(Fields(guildCount, shard))
  }

  lemma JsonOfOne(x: (string, int))
    ensures Json([x]) == "{" + Item(x) + "}"
  {
    assert seq(1, i requires 0 <= i < 1 => Item([x][i])) == [Item(x)];
  }

  lemma CountJsonText(n: string)
    ensures "{" + ("\"server_count\": " + n) + "}" == "{\"server_count\": " + n + "}"
  {
    assert "{" + "\"server_count\": " == "{\"server_count\": ";
  }

  /** Without a shard the payload is the one the newer cog posts. */
  lemma GetDataWithoutShard(guildCount: nat)
    ensures GetData(guildCount, None) == BotBinStats.Payload(guildCount)
  {
    assert Fields(guildCount, None) == [("server_count", guildCount)];
    JsonOfOne(("server_count", guildCount));
    ItemsOfShard(guildCount, 0);
    CountJsonText(NatToString(guildCount));
  }

  lemma JsonOfTwo(x: (string, int), y: (string, int))
    ensures Json([x, y]) == "{" + Item(x) + ", " + Item(y) + "}"
  {
    assert seq(2, i requires 0 <= i < 2 => Item([x, y][i])) == [Item(x), Item(y)];
    assert [Item(x), Item(y)][1..] == [Item(y)];
    assert Join([Item(x), Item(y)], ", ") == Item(x) + ", " + Item(y);
  }

  lemma ItemsOfShard(guildCount: nat, shard: int)
    ensures Item(("server_count", guildCount)) == "\"server_count\": " + NatToString(guildCount)
    ensures Item(("shard_id", shard)) == "\"shard_id\": " + IntToString(shard)
  {
  }

  lemma ShardJsonText(n: string, sh: string)
    ensures "{" + ("\"server_count\": " + n) + ", " + ("\"shard_id\": " + sh) + "}"
         == "{\"server_count\": " + n + ", \"shard_id\": " + sh + "}"
  {
    assert "{" + "\"server_count\": " == "{\"server_count\": ";
    assert ", " + "\"shard_id\": " == ", \"shard_id\": ";
  }

  /** With a shard the shard id follows the count. */
  lemma GetDataWithShard(guildCount: nat, shard: int)
    ensures GetData(guildCount, Some(shard))
         == "{\"server_count\": " + NatToString(guildCount) + ", \"shard_id\": " + IntToString(shard) + "}"
  {
    var n := NatToString(guildCount);
    var sh := IntToString(shard);
    JsonOfTwo(("server_count", guildCount), ("shard_id", shard));
    assert Fields(guildCount, Some(shard)) == [("server_count", guildCount), ("shard_id", shard)];
    ItemsOfShard(guildCount, shard);
    ShardJsonText(n, sh);
  }

  /** What `_load_configured_apis` ends with for the keys `keys`: the keys with a token, in order,
      and whether every key was present (a missing key raises `KeyError` after the keys before it
      were recorded). */
  function Loaded(config: BotBinStats.StatsConfig, keys: seq<string>): (r: (seq<string>, bool))
    ensures |r.0| <= |keys|
    decreases |keys|
  {
    if keys == [] then ([], true)
    else if keys[0] !in config then ([], false)
    else
      var rest := Loaded(config, keys[1..]);
      ((if config[keys[0]].Some? then [keys[0]] else []) + rest.0, rest.1)
  }

  /** Loading completes exactly when every key is configured, possibly as `None` ... */
  lemma {:induction false} LoadedCompletes(config: BotBinStats.StatsConfig, keys: seq<string>)
    ensures Loaded(config, keys).1 <==> forall i :: 0 <= i < |keys| ==> keys[i] in config
    decreases |keys|
  {
    if keys != [] && keys[0] in config {
      LoadedCompletes(config, keys[1..]);
      assert forall i :: 1 <= i < |keys| ==> keys[i] == keys[1..][i - 1];
    }
  }

  /** ... and then keeps exactly the keys whose token is not `None`, in their order. */
  lemma {:induction false} LoadedKeepsPresent(config: BotBinStats.StatsConfig, keys: seq<string>)
    requires forall i :: 0 <= i < |keys| ==> keys[i] in config
    ensures forall i :: 0 <= i < |Loaded(config, keys).0| ==> BotBinStats.Present(config, Loaded(config, keys).0[i])
    ensures forall i :: 0 <= i < |keys| && config[keys[i]].Some? ==> keys[i] in Loaded(config, keys).0
    ensures Loaded(config, keys).0 == Filter(keys, k => BotBinStats.Present(config, k))
    decreases |keys|
  {
    if keys != [] {
      assert forall i :: 1 <= i < |keys| ==> keys[i] == keys[1..][i - 1];
      LoadedKeepsPresent(config, keys[1..]);
    }
  }

  /** The cog's state these rules touch: its token configuration and the bot lists it posts to. */
  class Stats {
    var config: BotBinStats.StatsConfig
    var configuredApis: seq<string>

    constructor(config: BotBinStats.StatsConfig)
      ensures this.config == config && configuredApis == []
    {
      this.config := config;
      configuredApis := [];
    }

    /** `_load_configured_apis`: reset the list and append each key whose token is not `None`;
        `ok` is false when a key is missing and the loop stopped with `KeyError`. */
    method LoadConfiguredApis() returns (ok: bool)
      modifies this
      ensures config == old(config)
      ensures (configuredApis, ok) == Loaded(config, ApiKeys)
    {
      configuredApis := [];
      for i := 0 to |ApiKeys|
        invariant config == old(config)
        invariant Loaded(config, ApiKeys[..i]).1
        invariant configuredApis == Loaded(config, ApiKeys[..i]).0
      {
        var key := ApiKeys[i];
        LoadedSnoc(config, ApiKeys[..i], key);
        assert ApiKeys[..i + 1] == ApiKeys[..i] + [key];
        if key !in config {
          assert Loaded(config, ApiKeys) == Loaded(config, ApiKeys[..i + 1] + ApiKeys[i + 1..]);
          LoadedStops(config, ApiKeys[..i + 1], ApiKeys[i + 1..]);
          return false;
        }
        if config[key].Some? {
          configuredApis := configuredApis + [key];
        }
      }
      assert ApiKeys[..|ApiKeys|] == ApiKeys;
      return true;
    }
  }

  /** Appending a key to a fully loaded list extends the result by that key's outcome. */
  lemma {:induction false} LoadedSnoc(config: BotBinStats.StatsConfig, keys: seq<string>, key: string)
    requires Loaded(config, keys).1
    ensures key in config ==>
      Loaded(config, keys + [key]) == (Loaded(config, keys).0 + (if config[key].Some? then [key] else []), true)
    ensures key !in config ==> Loaded(config, keys + [key]) == (Loaded(config, keys).0, false)
    decreases |keys|
  {
    if keys == [] {
      assert [] + [key] == [key];
      assert [key][1..] == [];
      var tail: seq<string> := if key in config && config[key].Some? then [key] else [];
      assert tail + [] == tail && [] + tail == tail;
    } else {
      assert (keys + [key])[1..] == keys[1..] + [key];
      assert (keys + [key])[0] == keys[0] && keys[0] in config;
      LoadedSnoc(config, keys[1..], key);
      var head: seq<string> := if config[keys[0]].Some? then [keys[0]] else [];
      var tail: seq<string> := if key in config && config[key].Some? then [key] else [];
      assert head + (Loaded(config, keys[1..]).0 + tail) == (head + Loaded(config, keys[1..]).0) + tail;
    }
  }

  /** Once a key is missing, later keys change nothing. */
  lemma {:induction false} LoadedStops(config: BotBinStats.StatsConfig, keys: seq<string>, later: seq<string>)
    requires !Loaded(config, keys).1
    ensures Loaded(config, keys + later) == Loaded(config, keys)
    decreases |keys|
  {
    assert keys != [];
    assert (keys + later)[1..] == keys[1..] + later;
    if keys[0] in config {
      LoadedStops(config, keys[1..], later);
    }
  }
}
