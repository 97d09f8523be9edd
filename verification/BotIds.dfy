/** Bots sharing an id: ValidateBotIDs and BotByID of internal/config/config.go and BotDeliveryPolicy of
    internal/config/delivery.go. */
module BotIds {
  import opened Wrappers

  datatype BotConfig = BotConfig(id: string, host: string, secret: string, token: string, timeout: int,
                                 maxMessageLength: Option<int>, truncateSuffix: Option<string>)

  type Bots = map<string, BotConfig>

  const DEFAULT_MAX_MESSAGE_LENGTH := 4096
  const DEFAULT_TRUNCATE_SUFFIX := "…"

  /** The body cap and suffix in force for a bot: never negative, and the defaults where nothing is set
      or no such bot exists. */
  function BotDeliveryPolicy(bots: Bots, name: string): (p: (int, string))
    ensures p.0 >= 0
    ensures name in bots ==>
              forall n :: bots[name].maxMessageLength == Some(n) ==> (n >= 0 ==> p.0 == n) && (n < 0 ==> p.0 == 0)
    ensures name in bots ==> forall s :: bots[name].truncateSuffix == Some(s) ==> p.1 == s
    ensures name !in bots || bots[name].maxMessageLength == None ==> p.0 == 4096
    ensures name !in bots || bots[name].truncateSuffix == None ==> p.1 == "…"
  {
    if name !in bots then (DEFAULT_MAX_MESSAGE_LENGTH, DEFAULT_TRUNCATE_SUFFIX) else
    var bot := bots[name];
    (if bot.maxMessageLength.None? then DEFAULT_MAX_MESSAGE_LENGTH
     else if bot.maxMessageLength.value < 0 then 0 else bot.maxMessageLength.value,
     if bot.truncateSuffix.None? then DEFAULT_TRUNCATE_SUFFIX else bot.truncateSuffix.value)
  }

  /** What a bot is at run time; the names it goes by are not part of it. */
  datatype Runtime = Runtime(host: string, secret: string, token: string, timeout: int, limit: int, suffix: string)

  function RuntimeOf(bots: Bots, name: string): Runtime
    requires name in bots
  {
    var bot, policy := bots[name], BotDeliveryPolicy(bots, name);
    Runtime(bot.host, bot.secret, bot.token, bot.timeout, policy.0, policy.1)
  }

  datatype Mismatch = Host | Secret | Token | Timeout | MaxMessageLength | TruncateSuffix

  datatype Verdict = Accepted | Disagree(name: string, alias: string, id: string, what: Mismatch)

  /** The first field, in the order they are compared, in which the two differ. */
  function FirstMismatch(a: Runtime, b: Runtime): (m: Option<Mismatch>)
    ensures m.None? <==> a == b
    ensures m == Some(Host) <==> a.host != b.host
    ensures m == Some(Secret) ==> a.secret != b.secret && a.host == b.host
    ensures m == Some(Token) ==> a.token != b.token && a.host == b.host && a.secret == b.secret
    ensures m == Some(Timeout) ==>
              a.timeout != b.timeout && b == a.(timeout := b.timeout, limit := b.limit, suffix := b.suffix)
    ensures m == Some(MaxMessageLength) ==> a.limit != b.limit && b == a.(limit := b.limit, suffix := b.suffix)
    ensures m == Some(TruncateSuffix) ==> a.suffix != b.suffix && b == a.(suffix := b.suffix)
  {
    if a.host != b.host then Some(Host)
    else if a.secret != b.secret then Some(Secret)
    else if a.token != b.token then Some(Token)
    else if a.timeout != b.timeout then Some(Timeout)
    else if a.limit != b.limit then Some(MaxMessageLength)
    else if a.suffix != b.suffix then Some(TruncateSuffix)
    else None
  }

  ghost predicate Agree(bots: Bots, a: string, b: string)
    requires a in bots && b in bots
  {
    bots[a].id == bots[b].id && bots[a].id != "" ==> RuntimeOf(bots, a) == RuntimeOf(bots, b)
  }

  ghost predicate AllAgree(bots: Bots) {
    forall a, b :: a in bots && b in bots ==> Agree(bots, a, b)
  }

  /** `names` lists every bot; the source sorts them, but any order will do. */
  method ValidateBotIDs(bots: Bots, names: seq<string>) returns (v: Verdict)
    requires forall n :: n in names <==> n in bots
    ensures v.Accepted? <==> AllAgree(bots)
    ensures v.Disagree? ==>
              && v.name in bots && v.alias in bots
              && bots[v.name].id == bots[v.alias].id == v.id != ""
              && FirstMismatch(RuntimeOf(bots, v.name), RuntimeOf(bots, v.alias)) == Some(v.what)
  {
    var seen: map<string, (string, Runtime)> := map[];
    for i := 0 to |names|
      invariant forall id :: id in seen ==>
        id != "" && seen[id].0 in bots && bots[seen[id].0].id == id && seen[id].1 == RuntimeOf(bots, seen[id].0)
      invariant forall n :: n in names[..i] && bots[n].id != "" ==>
        bots[n].id in seen && seen[bots[n].id].1 == RuntimeOf(bots, n)
    {
      var name := names[i];
      assert name in names;
      var id, runtime := bots[name].id, RuntimeOf(bots, name);
      if id == "" {
        continue;
      }
      if id in seen {
        var previous := seen[id];
        var mismatch := FirstMismatch(runtime, previous.1);
        if mismatch.Some? {
          assert !Agree(bots, name, previous.0);
          return Disagree(name, previous.0, id, mismatch.value);
        }
      } else {
        seen := seen[id := (name, runtime)];
      }
    }
    forall a, b | a in bots && b in bots
      ensures Agree(bots, a, b)
    {
      assert a in names[..|names|] && b in names[..|names|];
    }
    return Accepted;
  }

  /** What BotByID may return: the bots are walked in map order, so any bot of that id. */
  ghost predicate MayReturn(bots: Bots, id: string, name: string) {
    name in bots && bots[name].id == id
  }

  method BotByID(bots: Bots, id: string) returns (name: Option<string>)
    ensures name.Some? ==> MayReturn(bots, id, name.value)
    ensures name.None? ==> forall n :: !MayReturn(bots, id, n)
  {
    var left := bots.Keys;
    while left != {}
      invariant left <= bots.Keys
      invariant forall n :: n in bots && n !in left ==> bots[n].id != id
      decreases |left|
    {
      var n :| n in left;
      if bots[n].id == id {
        return Some(n);
      }
      left := left - {n};
    }
    return None;
  }

  /** However the map is walked, the lookup leads to the same runtime configuration. */
  ghost predicate Deterministic(bots: Bots, id: string) {
    forall a, b :: MayReturn(bots, id, a) && MayReturn(bots, id, b) ==> RuntimeOf(bots, a) == RuntimeOf(bots, b)
  }

  /** The validation accepts exactly when looking a bot up by a non-empty id and then reading its delivery
      policy gives one configuration in every map order. */
  lemma ValidMeansDeterministic(bots: Bots)
    ensures AllAgree(bots) <==> forall id :: id != "" ==> Deterministic(bots, id)
  {
    if forall id :: id != "" ==> Deterministic(bots, id) {
      forall a, b | a in bots && b in bots
        ensures Agree(bots, a, b)
      {
        var id := bots[a].id;
        if id != "" && bots[b].id == id {
          assert Deterministic(bots, id) && MayReturn(bots, id, a) && MayReturn(bots, id, b);
        }
      }
    }
  }

  /** The section without the bots that have no id. */
  function Identified(bots: Bots): Bots {
    map n | n in bots && bots[n].id != "" :: bots[n]
  }

  /** Bots without an id do not count in the validation. */
  lemma EmptyIdIsNotChecked(bots: Bots)
    ensures AllAgree(bots) <==> AllAgree(Identified(bots))
  {
    var rest := Identified(bots);
    forall a, b | a in rest && b in rest
      ensures Agree(rest, a, b) <==> Agree(bots, a, b)
    {
      assert RuntimeOf(rest, a) == RuntimeOf(bots, a) && RuntimeOf(rest, b) == RuntimeOf(bots, b);
    }
  }

  /** So looking up the empty id is outside the promise: whenever two bots without an id differ at run time,
      it may give either, accepted or not. */
  lemma EmptyIdIsAmbiguous(bots: Bots, a: string, b: string)
    requires a in bots && b in bots && bots[a].id == "" && bots[b].id == "" && RuntimeOf(bots, a) != RuntimeOf(bots, b)
    ensures MayReturn(bots, "", a) && MayReturn(bots, "", b) && !Deterministic(bots, "")
  {
    assert MayReturn(bots, "", a) && MayReturn(bots, "", b);
  }
}
