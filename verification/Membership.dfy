/** internal/server/membership.go: the chat membership cache. This module is the checker itself:
    the state under its mutex and the code sections that run with the mutex held. */
module Membership {

  const DEFAULT_TTL := 60_000_000_000
  const DEFAULT_NEGATIVE_TTL := 15_000_000_000
  const MAX_ENTRIES := 10000
  const MAX_INFLIGHT := 32

  datatype Entry = Entry(member: bool, expires: int)

  datatype Outcome = Answer(member: bool) | Failed(error: string)

  /** How far the goroutine of one shared lookup has come: the lookup runs, it has returned, its
      outcome has been stored (at a time), and its waiters have been released. */
  datatype Stage =
    | LookingUp
    | LookedUp(outcome: Outcome)
    | Stored(outcome: Outcome, at: int)
    | Released(outcome: Outcome, at: int)
  {
    predicate Unfinished() {
      LookingUp? || LookedUp?
    }
  }

  datatype Call = Call(bot: string, chat: string, key: string, stage: Stage)

  /** Lifetimes in nanoseconds, and how the lower-casing of chat ids maps one rune. */
  datatype Options = Options(ttl: int, negativeTtl: int, lower: char -> char) {
    /** The lifetime of an answer; values that are not positive mean the default. */
    function TtlOf(member: bool): (d: int)
      ensures d > 0
      ensures member ==> d == if ttl > 0 then ttl else DEFAULT_TTL
      ensures !member ==> d == if negativeTtl > 0 then negativeTtl else DEFAULT_NEGATIVE_TTL
    {
      if member then if ttl <= 0 then DEFAULT_TTL else ttl
      else if negativeTtl <= 0 then DEFAULT_NEGATIVE_TTL else negativeTtl
    }

    function Fold(chat: string): string {
      seq(|chat|, i requires 0 <= i < |chat| => lower(chat[i]))
    }

    function Key(bot: string, chat: string): string {
      bot + "\0" + Fold(chat)
    }
  }

  /** What the mutex protects. A reference to a call is its index in the list of calls ever made. */
  datatype State = State(cache: map<string, Entry>, inflight: map<string, nat>, calls: seq<Call>)

  datatype CheckResult = Cached(member: bool) | Busy | Wait(call: nat)

  /** The lock section of `check`. */
  function BeginCheck(o: Options, s: State, now: int, bot: string, chat: string): (State, CheckResult) {
    var key := o.Key(bot, chat);
    if key in s.cache && now < s.cache[key].expires then (s, Cached(s.cache[key].member)) else
    var s1 := s.(cache := s.cache - {key});
    if key in s1.inflight then (s1, Wait(s1.inflight[key]))
    else if |s1.inflight| >= MAX_INFLIGHT then (s1, Busy)
    else
      var call := |s1.calls|;
      (s1.(inflight := s1.inflight[key := call], calls := s1.calls + [Call(bot, chat, key, LookingUp)]), Wait(call))
  }

  function Live(cache: map<string, Entry>, now: int): map<string, Entry> {
    map k | k in cache && now < cache[k].expires :: cache[k]
  }

  /** What a sweep leaves: the live entries, or nothing when those still fill the cache. */
  function Swept(cache: map<string, Entry>, now: int): (r: map<string, Entry>)
    ensures |r| < MAX_ENTRIES
  {
    if |Live(cache, now)| >= MAX_ENTRIES then map[] else Live(cache, now)
  }

  function WithAnswer(o: Options, cache: map<string, Entry>, key: string, member: bool, now: int): map<string, Entry> {
    (if |cache| >= MAX_ENTRIES then Swept(cache, now) else cache)[key := Entry(member, now + o.TtlOf(member))]
  }

  /** The lock section of `run`, after its lookup has returned. */
  function FinishCall(o: Options, s: State, now: int, id: nat): State
    requires id < |s.calls| && s.calls[id].stage.LookedUp?
  {
    var call := s.calls[id];
    var outcome := call.stage.outcome;
    State(
      if outcome.Answer? then WithAnswer(o, s.cache, call.key, outcome.member, now) else s.cache,
      s.inflight - {call.key},
      s.calls[id := call.(stage := Stored(outcome, now))])
  }

  class MembershipChecker {
    const options: Options
    var cache: map<string, Entry>
    var inflight: map<string, nat>
    var calls: seq<Call>

    constructor (options: Options)
      ensures this.options == options && View() == State(map[], map[], [])
    {
      this.options := options;
      cache, inflight, calls := map[], map[], [];
    }

    function View(): State
      reads this
    {
      State(cache, inflight, calls)
    }

    method Check(now: int, bot: string, chat: string) returns (r: CheckResult)
      modifies this
      ensures (View(), r) == BeginCheck(options, old(View()), now, bot, chat)
    {
      var key := options.Key(bot, chat);
      if key in cache {
        if now < cache[key].expires {
          return Cached(cache[key].member);
        }
        cache := cache - {key};
      }
      assert cache == old(cache) - {key};
      if key in inflight {
        return Wait(inflight[key]);
      }
      if |inflight| >= MAX_INFLIGHT {
        return Busy;
      }
      var call := |calls|;
      calls := calls + [Call(bot, chat, key, LookingUp)];
      inflight := inflight[key := call];
      return Wait(call);
    }

    method Finish(now: int, id: nat)
      requires id < |calls| && calls[id].stage.LookedUp?
      modifies this
      ensures View() == FinishCall(options, old(View()), now, id)
    {
      var call := calls[id];
      var outcome := call.stage.outcome;
      inflight := inflight - {call.key};
      if outcome.Answer? {
        var ttl := options.TtlOf(outcome.member);
        if |cache| >= MAX_ENTRIES {
          Sweep(now);
        }
        cache := cache[call.key := Entry(outcome.member, now + ttl)];
      }
      calls := calls[id := call.(stage := Stored(outcome, now))];
    }

    /** The expired entries are deleted one by one, in whatever order the map is walked. */
    method Sweep(now: int)
      modifies this`cache
      ensures cache == Swept(old(cache), now)
    {
      var keys := cache.Keys;
      while keys != {}
        invariant keys <= old(cache).Keys
        invariant cache.Keys <= old(cache).Keys
        invariant forall k :: k in old(cache) ==>
          (k in cache <==> k in keys || now < old(cache)[k].expires) && (k in cache ==> cache[k] == old(cache)[k])
        decreases |keys|
      {
        var k :| k in keys;
        keys := keys - {k};
        if !(now < cache[k].expires) {
          cache := cache - {k};
        }
      }
      assert cache == Live(old(cache), now);
      if |cache| >= MAX_ENTRIES {
        cache := map[];
      }
    }
  }

  // ---- the cache key ---------------------------------------------------------------------------

  predicate NulFree(s: string) {
    '\0' !in s
  }

  /** Lower-casing neither makes a NUL nor removes one. */
  ghost predicate KeepsNul(o: Options) {
    forall c :: o.lower(c) == '\0' <==> c == '\0'
  }

  /** The texts are equal up to the case of their letters. */
  ghost predicate SameLetters(o: Options, a: string, b: string) {
    |a| == |b| && forall i :: 0 <= i < |a| ==> o.lower(a[i]) == o.lower(b[i])
  }

  lemma FoldComparesLetters(o: Options, a: string, b: string)
    ensures o.Fold(a) == o.Fold(b) <==> SameLetters(o, a, b)
  {
    if o.Fold(a) == o.Fold(b) {
      assert |a| == |o.Fold(a)| == |b|;
      forall i | 0 <= i < |a|
        ensures o.lower(a[i]) == o.lower(b[i])
      {
        assert o.Fold(a)[i] == o.Fold(b)[i];
      }
    }
  }

  /** For chat ids without NUL the key tells any two bots apart and any two chats that do not
      merely differ in case. */
  lemma KeySeparates(o: Options, bot: string, chat: string, bot': string, chat': string)
    requires KeepsNul(o) && NulFree(chat) && NulFree(chat')
    ensures o.Key(bot, chat) == o.Key(bot', chat') <==> bot == bot' && SameLetters(o, chat, chat')
  {
    FoldComparesLetters(o, chat, chat');
    var a, b := o.Key(bot, chat), o.Key(bot', chat');
    if a == b {
      assert a[|bot|] == '\0' && b[|bot'|] == '\0';
      FoldNulFree(o, chat);
      FoldNulFree(o, chat');
      SameSplit(bot, o.Fold(chat), bot', o.Fold(chat'));
    }
  }

  lemma FoldNulFree(o: Options, chat: string)
    requires KeepsNul(o) && NulFree(chat)
    ensures NulFree(o.Fold(chat))
  {
    forall i | 0 <= i < |chat| ensures o.Fold(chat)[i] != '\0' {
      assert chat[i] in chat;
    }
  }

  lemma SameSplit(a: string, x: string, b: string, y: string)
    requires a + "\0" + x == b + "\0" + y && NulFree(x) && NulFree(y)
    ensures a == b && x == y
  {
    if |a| < |b| { ShorterHeadLeavesNul(a, x, b, y); }
    if |b| < |a| { ShorterHeadLeavesNul(b, y, a, x); }
    var s := a + "\0" + x;
    assert s[..|a|] == a && s[|a| + 1..] == x;
  }

  lemma ShorterHeadLeavesNul(a: string, x: string, b: string, y: string)
    requires a + "\0" + x == b + "\0" + y && |a| < |b|
    ensures !NulFree(x)
  {
    var s := a + "\0" + x;
    assert (b + "\0" + y)[|b|] == '\0';
    assert x[|b| - |a| - 1] == s[|b|];
  }

  /** A chat id with a NUL in it shares its key with another bot: the restriction is needed. */
  lemma NulChatSharesItsKey(o: Options, bot: string, chat: string) returns (bot': string, chat': string)
    requires KeepsNul(o) && !NulFree(chat)
    ensures bot' != bot && NulFree(chat') && o.Key(bot', chat') == o.Key(bot, chat)
  {
    var n := |chat|;
    while chat[n - 1] != '\0'
      invariant 0 < n <= |chat| && NulFree(chat[n..]) && !NulFree(chat[..n])
      decreases n
    {
      assert chat[..n] == chat[..n - 1] + [chat[n - 1]];
      assert chat[n - 1..] == [chat[n - 1]] + chat[n..];
      n := n - 1;
    }
    bot', chat' := bot + "\0" + o.Fold(chat[..n - 1]), chat[n..];
    assert o.Fold(chat) == o.Fold(chat[..n - 1]) + "\0" + o.Fold(chat[n..]);
    assert o.Key(bot', chat') == bot + "\0" + (o.Fold(chat[..n - 1]) + "\0" + o.Fold(chat[n..]));
  }
}
