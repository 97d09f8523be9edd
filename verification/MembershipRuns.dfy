/** Every interleaving of the membership checker: callers arriving, giving up or being answered,
    detached lookups returning in any order, and time passing in between. */
module MembershipRuns {
  import opened Membership

  /** How one call of `check` stands: waiting for a shared call, answered, or gone. */
  datatype Status =
    | Waiting(call: nat)
    | FromCache(member: bool, at: int)
    | FromCall(call: nat, outcome: Outcome, at: int)
    | Refused
    | GaveUp

  datatype Caller = Caller(bot: string, chat: string, arrived: int, status: Status)

  datatype System = System(now: int, checker: State, callers: seq<Caller>)

  /** One atomic step. What a lookup returns, who arrives, and which of two ready channels a waiting
      caller sees first, are up to the environment. */
  datatype Event =
    | Tick(now: int)
    | Arrive(bot: string, chat: string)
    | LookupReturns(call: nat, outcome: Outcome)
    | Finish(call: nat)
    | Release(call: nat)
    | Receive(caller: nat)
    | GiveUp(caller: nat)

  const INITIAL := System(0, State(map[], map[], []), [])

  predicate Enabled(s: System, e: Event) {
    match e
    case Tick(now) => s.now <= now
    case Arrive(_, _) => true
    case LookupReturns(id, _) => id < |s.checker.calls| && s.checker.calls[id].stage.LookingUp?
    case Finish(id) => id < |s.checker.calls| && s.checker.calls[id].stage.LookedUp?
    case Release(id) => id < |s.checker.calls| && s.checker.calls[id].stage.Stored?
    case Receive(i) =>
      && i < |s.callers| && s.callers[i].status.Waiting?
      && s.callers[i].status.call < |s.checker.calls| && s.checker.calls[s.callers[i].status.call].stage.Released?
    case GiveUp(i) => i < |s.callers| && s.callers[i].status.Waiting?
  }

  function StatusAfter(r: CheckResult, now: int): Status {
    match r
    case Cached(member) => FromCache(member, now)
    case Busy => Refused
    case Wait(call) => Waiting(call)
  }

  function SetStage(c: State, id: nat, stage: Stage): State
    requires id < |c.calls|
  {
    c.(calls := c.calls[id := c.calls[id].(stage := stage)])
  }

  function SetStatus(s: System, i: nat, status: Status): System
    requires i < |s.callers|
  {
    s.(callers := s.callers[i := s.callers[i].(status := status)])
  }

  function Apply(o: Options, s: System, e: Event): System
    requires Enabled(s, e)
  {
    match e
    case Tick(now) => s.(now := now)
    case Arrive(bot, chat) =>
      var (checker, r) := BeginCheck(o, s.checker, s.now, bot, chat);
      System(s.now, checker, s.callers + [Caller(bot, chat, s.now, StatusAfter(r, s.now))])
    case LookupReturns(id, outcome) => s.(checker := SetStage(s.checker, id, LookedUp(outcome)))
    case Finish(id) => s.(checker := FinishCall(o, s.checker, s.now, id))
    case Release(id) =>
      var stage := s.checker.calls[id].stage;
      s.(checker := SetStage(s.checker, id, Released(stage.outcome, stage.at)))
    case Receive(i) =>
      var call := s.callers[i].status.call;
      SetStatus(s, i, FromCall(call, s.checker.calls[call].stage.outcome, s.now))
    case GiveUp(i) => SetStatus(s, i, GaveUp)
  }

  /** The state a run leads to, or None when one of its steps was not possible. */
  datatype RunResult = Stuck | At(state: System)

  function Run(o: Options, events: seq<Event>): RunResult {
    if events == [] then At(INITIAL) else
      match Run(o, events[..|events| - 1])
      case Stuck => Stuck
      case At(s) =>
        var e := events[|events| - 1];
        if Enabled(s, e) then At(Apply(o, s, e)) else Stuck
  }

  // ---- the invariant -----------------------------------------------------------------------------

  ghost predicate InflightOk(c: State, k: string)
    requires k in c.inflight
  {
    var id := c.inflight[k];
    id < |c.calls| && c.calls[id].key == k && c.calls[id].stage.Unfinished()
  }

  ghost predicate Tracked(c: State, id: nat)
    requires id < |c.calls|
  {
    c.calls[id].stage.Unfinished() ==> c.calls[id].key in c.inflight && c.inflight[c.calls[id].key] == id
  }

  /** The unfinished lookups and the in-flight table are the same thing. */
  ghost predicate OneLookupPerKey(c: State) {
    && (forall k :: k in c.inflight ==> InflightOk(c, k))
    && (forall id :: 0 <= id < |c.calls| ==> Tracked(c, id))
  }

  ghost predicate Bounded(c: State) {
    && c.cache.Keys !! c.inflight.Keys
    && |c.inflight| <= MAX_INFLIGHT && |c.cache| <= MAX_ENTRIES
  }

  /** The lookup `id` for this key answered `member`, and its answer was stored at time `at`. */
  ghost predicate AnsweredAt(c: State, id: int, key: string, member: bool, at: int) {
    && 0 <= id < |c.calls| && c.calls[id].key == key
    && !c.calls[id].stage.Unfinished() && c.calls[id].stage.outcome == Answer(member) && c.calls[id].stage.at == at
  }

  ghost predicate HasSource(c: State, key: string, member: bool, at: int) {
    exists id :: AnsweredAt(c, id, key, member, at)
  }

  /** An entry was stored one lifetime before it expires, by a lookup of its key. */
  ghost predicate EntryHasSource(o: Options, c: State, k: string)
    requires k in c.cache
  {
    HasSource(c, k, c.cache[k].member, c.cache[k].expires - o.TtlOf(c.cache[k].member))
  }

  ghost predicate CacheHasSources(o: Options, c: State) {
    forall k :: k in c.cache ==> EntryHasSource(o, c, k)
  }

  ghost predicate CallKeyed(o: Options, s: System, id: nat)
    requires id < |s.checker.calls|
  {
    var call := s.checker.calls[id];
    && call.key == o.Key(call.bot, call.chat)
    && (call.stage.Unfinished() || call.stage.at <= s.now)
    && AskedFor(s.callers, call.bot, call.chat)
  }

  ghost predicate AskedFor(callers: seq<Caller>, bot: string, chat: string) {
    exists i :: 0 <= i < |callers| && callers[i].bot == bot && callers[i].chat == chat
  }

  ghost predicate CallsKeyed(o: Options, s: System) {
    forall id :: 0 <= id < |s.checker.calls| ==> CallKeyed(o, s, id)
  }

  /** What each caller was told, or is still waiting for, comes from its own (bot, chat). */
  ghost predicate CallerOk(o: Options, s: System, i: nat)
    requires i < |s.callers|
  {
    var caller, calls := s.callers[i], s.checker.calls;
    var key := o.Key(caller.bot, caller.chat);
    && caller.arrived <= s.now
    && match caller.status
       case Waiting(c) =>
         c < |calls| && calls[c].key == key && (calls[c].stage.Unfinished() || caller.arrived <= calls[c].stage.at)
       case FromCache(member, at) =>
         && caller.arrived == at <= s.now
         && exists t :: HasSource(s.checker, key, member, t) && t <= at < t + o.TtlOf(member)
       case FromCall(c, outcome, at) =>
         && c < |calls| && calls[c].key == key && calls[c].stage.Released? && calls[c].stage.outcome == outcome
         && caller.arrived <= calls[c].stage.at <= at <= s.now
       case _ => true
  }

  ghost predicate CallersOk(o: Options, s: System) {
    forall i :: 0 <= i < |s.callers| ==> CallerOk(o, s, i)
  }

  ghost predicate Inv(o: Options, s: System) {
    && OneLookupPerKey(s.checker) && Bounded(s.checker)
    && CacheHasSources(o, s.checker) && CallsKeyed(o, s) && CallersOk(o, s)
  }

  // ---- each step keeps it ------------------------------------------------------------------------

  /** Calls only ever progress: a finished one stays as it is. */
  ghost predicate CallExtends(c: State, c': State, id: nat)
    requires id < |c.calls| <= |c'.calls|
  {
    var a, b := c.calls[id], c'.calls[id];
    && a.key == b.key && a.bot == b.bot && a.chat == b.chat
    && (!a.stage.Unfinished() ==>
          !b.stage.Unfinished() && a.stage.outcome == b.stage.outcome && a.stage.at == b.stage.at)
    && (a.stage.Released? ==> b.stage.Released?)
  }

  ghost predicate CallsExtend(c: State, c': State) {
    |c.calls| <= |c'.calls| && forall id :: 0 <= id < |c.calls| ==> CallExtends(c, c', id)
  }

  ghost predicate CallersExtend(s: System, s': System) {
    && |s.callers| <= |s'.callers| && s.now <= s'.now
    && forall i :: 0 <= i < |s.callers| ==>
         s'.callers[i] == s.callers[i].(status := s'.callers[i].status)
  }

  lemma StepExtends(o: Options, s: System, e: Event)
    requires Enabled(s, e)
    ensures CallsExtend(s.checker, Apply(o, s, e).checker) && CallersExtend(s, Apply(o, s, e))
  {
    StepExtendsCalls(o, s, e);
    StepExtendsCallers(o, s, e);
  }

  lemma StepExtendsCalls(o: Options, s: System, e: Event)
    requires Enabled(s, e)
    ensures CallsExtend(s.checker, Apply(o, s, e).checker)
  {
    var c, c' := s.checker, Apply(o, s, e).checker;
    forall id | 0 <= id < |c.calls|
      ensures |c.calls| <= |c'.calls| && CallExtends(c, c', id)
    {
      if e.Arrive? { ArrivalAdds(o, c, s.now, e.bot, e.chat); }
    }
    assert |c.calls| <= |c'.calls| by {
      if e.Arrive? { ArrivalAdds(o, c, s.now, e.bot, e.chat); }
    }
  }

  lemma StepExtendsCallers(o: Options, s: System, e: Event)
    requires Enabled(s, e)
    ensures CallersExtend(s, Apply(o, s, e))
  {}

  lemma SourceKept(c: State, c': State, key: string, member: bool, at: int)
    requires CallsExtend(c, c') && HasSource(c, key, member, at)
    ensures HasSource(c', key, member, at)
  {
    var id :| AnsweredAt(c, id, key, member, at);
    assert CallExtends(c, c', id);
    assert AnsweredAt(c', id, key, member, at);
  }

  lemma RemovedIsSmaller<T>(m: map<string, T>, k: string)
    ensures |m - {k}| <= |m| && (k in m ==> |m - {k}| == |m| - 1)
  {
    if k in m {
      assert m == (m - {k})[k := m[k]];
    } else {
      assert m - {k} == m;
    }
  }

  // The checker alone: the three things that happen to its state.

  /** An arrival leaves the calls and the table alone, or adds one new lookup to both. */
  lemma ArrivalAdds(o: Options, c: State, now: int, bot: string, chat: string)
    ensures var c' := BeginCheck(o, c, now, bot, chat).0;
            var key := o.Key(bot, chat);
            || (c'.inflight == c.inflight && c'.calls == c.calls)
            || (key !in c.inflight && c'.inflight == c.inflight[key := |c.calls|]
                && c'.calls == c.calls + [Call(bot, chat, key, LookingUp)])
  {}

  lemma ArriveKeepsLookups(o: Options, c: State, now: int, bot: string, chat: string)
    requires OneLookupPerKey(c)
    ensures OneLookupPerKey(BeginCheck(o, c, now, bot, chat).0)
  {
    var c' := BeginCheck(o, c, now, bot, chat).0;
    ArrivalAdds(o, c, now, bot, chat);
    LookupsKept(c, c', Call(bot, chat, o.Key(bot, chat), LookingUp));
  }

  lemma LookupsKept(c: State, c': State, call: Call)
    requires OneLookupPerKey(c) && call.stage.LookingUp?
    requires || (c'.inflight == c.inflight && c'.calls == c.calls)
             || (call.key !in c.inflight && c'.inflight == c.inflight[call.key := |c.calls|]
                 && c'.calls == c.calls + [call])
    ensures OneLookupPerKey(c')
  {
    forall k | k in c'.inflight
      ensures InflightOk(c', k)
    {
      if k in c.inflight { assert InflightOk(c, k); }
    }
    forall id | 0 <= id < |c'.calls|
      ensures Tracked(c', id)
    {
      if id < |c.calls| { assert Tracked(c, id); }
    }
  }

  /** What an arrival does to the tables: a new lookup only below the bound, and for a key just dropped from
      the cache. */
  lemma ArrivalTables(o: Options, c: State, now: int, bot: string, chat: string)
    ensures var c', key := BeginCheck(o, c, now, bot, chat).0, o.Key(bot, chat);
            || (c'.cache == c.cache && c'.inflight == c.inflight)
            || (c'.cache == c.cache - {key} && c'.inflight == c.inflight)
            || (c'.cache == c.cache - {key} && |c.inflight| < MAX_INFLIGHT
                && c'.inflight == c.inflight[key := |c.calls|])
  {}

  lemma ArriveKeepsBounds(o: Options, c: State, now: int, bot: string, chat: string)
    requires Bounded(c)
    ensures Bounded(BeginCheck(o, c, now, bot, chat).0)
  {
    ArrivalTables(o, c, now, bot, chat);
    RemovedIsSmaller(c.cache, o.Key(bot, chat));
  }

  lemma StageKeepsChecker(c: State, id: nat, stage: Stage)
    requires OneLookupPerKey(c) && Bounded(c) && id < |c.calls|
    requires c.calls[id].stage.Unfinished() == stage.Unfinished()
    ensures OneLookupPerKey(SetStage(c, id, stage)) && Bounded(SetStage(c, id, stage))
  {
    var c' := SetStage(c, id, stage);
    forall k | k in c'.inflight
      ensures InflightOk(c', k)
    {
      assert InflightOk(c, k);
    }
    forall j | 0 <= j < |c'.calls|
      ensures Tracked(c', j)
    {
      assert Tracked(c, j);
    }
  }

  lemma FinishKeepsLookups(o: Options, c: State, now: int, id: nat)
    requires OneLookupPerKey(c) && id < |c.calls| && c.calls[id].stage.LookedUp?
    ensures OneLookupPerKey(FinishCall(o, c, now, id))
  {
    var c' := FinishCall(o, c, now, id);
    assert Tracked(c, id);
    forall k | k in c'.inflight
      ensures InflightOk(c', k)
    {
      assert InflightOk(c, k);
    }
    forall j | 0 <= j < |c'.calls|
      ensures Tracked(c', j)
    {
      assert Tracked(c, j);
    }
  }

  lemma FinishKeepsBounds(o: Options, c: State, now: int, id: nat)
    requires OneLookupPerKey(c) && Bounded(c) && id < |c.calls| && c.calls[id].stage.LookedUp?
    ensures Bounded(FinishCall(o, c, now, id))
  {
    var key, outcome := c.calls[id].key, c.calls[id].stage.outcome;
    RemovedIsSmaller(c.inflight, key);
    if outcome.Answer? {
      StoringKeepsBound(o, c.cache, key, outcome.member, now);
    }
  }

  lemma StoringKeepsBound(o: Options, cache: map<string, Entry>, key: string, member: bool, now: int)
    requires |cache| <= MAX_ENTRIES
    ensures var cache' := WithAnswer(o, cache, key, member, now);
            |cache'| <= MAX_ENTRIES && cache'.Keys <= cache.Keys + {key}
  {
    assert Swept(cache, now).Keys <= cache.Keys;
  }

  lemma CheckerKept(o: Options, s: System, e: Event)
    requires Inv(o, s) && Enabled(s, e)
    ensures OneLookupPerKey(Apply(o, s, e).checker) && Bounded(Apply(o, s, e).checker)
  {
    match e {
      case Arrive(bot, chat) =>
        ArriveKeepsLookups(o, s.checker, s.now, bot, chat);
        ArriveKeepsBounds(o, s.checker, s.now, bot, chat);
      case LookupReturns(id, outcome) => StageKeepsChecker(s.checker, id, LookedUp(outcome));
      case Release(id) =>
        var stage := s.checker.calls[id].stage;
        StageKeepsChecker(s.checker, id, Released(stage.outcome, stage.at));
      case Finish(id) =>
        FinishKeepsLookups(o, s.checker, s.now, id);
        FinishKeepsBounds(o, s.checker, s.now, id);
      case _ =>
    }
  }

  /** An entry after a step is one that was there, or the answer just stored. */
  lemma EntryComesFrom(o: Options, s: System, e: Event, k: string)
    requires Enabled(s, e) && k in Apply(o, s, e).checker.cache
    ensures var entry := Apply(o, s, e).checker.cache[k];
            || (k in s.checker.cache && entry == s.checker.cache[k])
            || (e.Finish? && s.checker.calls[e.call].key == k
                && s.checker.calls[e.call].stage.outcome == Answer(entry.member)
                && entry.expires == s.now + o.TtlOf(entry.member))
  {}

  lemma StoredIsSource(o: Options, c: State, now: int, id: nat, member: bool)
    requires id < |c.calls| && c.calls[id].stage == LookedUp(Answer(member))
    ensures HasSource(FinishCall(o, c, now, id), c.calls[id].key, member, now)
  {
    assert AnsweredAt(FinishCall(o, c, now, id), id, c.calls[id].key, member, now);
  }

  lemma EntryKeepsSource(o: Options, s: System, e: Event, k: string)
    requires CacheHasSources(o, s.checker) && Enabled(s, e) && k in Apply(o, s, e).checker.cache
    ensures EntryHasSource(o, Apply(o, s, e).checker, k)
  {
    EntryComesFrom(o, s, e, k);
    if k in s.checker.cache && Apply(o, s, e).checker.cache[k] == s.checker.cache[k] {
      StepExtends(o, s, e);
      OldEntryKeepsSource(o, s.checker, Apply(o, s, e).checker, k);
    } else {
      NewEntryHasSource(o, s, e, k);
    }
  }

  lemma OldEntryKeepsSource(o: Options, c: State, c': State, k: string)
    requires CacheHasSources(o, c) && CallsExtend(c, c')
    requires k in c.cache && k in c'.cache && c'.cache[k] == c.cache[k]
    ensures EntryHasSource(o, c', k)
  {
    var entry := c.cache[k];
    assert EntryHasSource(o, c, k);
    SourceKept(c, c', k, entry.member, entry.expires - o.TtlOf(entry.member));
  }

  lemma NewEntryHasSource(o: Options, s: System, e: Event, k: string)
    requires Enabled(s, e) && e.Finish? && k in Apply(o, s, e).checker.cache && s.checker.calls[e.call].key == k
    requires var entry := Apply(o, s, e).checker.cache[k];
             && s.checker.calls[e.call].stage.outcome == Answer(entry.member)
             && entry.expires == s.now + o.TtlOf(entry.member)
    ensures EntryHasSource(o, Apply(o, s, e).checker, k)
  {
    StoredIsSource(o, s.checker, s.now, e.call, Apply(o, s, e).checker.cache[k].member);
  }

  lemma SourcesKept(o: Options, s: System, e: Event)
    requires Inv(o, s) && Enabled(s, e)
    ensures CacheHasSources(o, Apply(o, s, e).checker)
  {
    forall k | k in Apply(o, s, e).checker.cache
      ensures EntryHasSource(o, Apply(o, s, e).checker, k)
    {
      EntryKeepsSource(o, s, e, k);
    }
  }

  lemma AskedForKept(s: System, s': System, bot: string, chat: string)
    requires CallersExtend(s, s') && AskedFor(s.callers, bot, chat)
    ensures AskedFor(s'.callers, bot, chat)
  {
    var i :| 0 <= i < |s.callers| && s.callers[i].bot == bot && s.callers[i].chat == chat;
    assert s'.callers[i].bot == bot && s'.callers[i].chat == chat;
  }

  lemma CallsStayKeyed(o: Options, s: System, e: Event)
    requires Inv(o, s) && Enabled(s, e)
    ensures CallsKeyed(o, Apply(o, s, e))
  {
    StepExtends(o, s, e);
    var s' := Apply(o, s, e);
    forall id | 0 <= id < |s'.checker.calls|
      ensures CallKeyed(o, s', id)
    {
      if id < |s.checker.calls| {
        OldCallKeyed(o, s, e, id);
      } else {
        NewCallKeyed(o, s, e, id);
      }
    }
  }

  /** A new call is made by a caller who has just arrived. */
  lemma NewCallKeyed(o: Options, s: System, e: Event, id: nat)
    requires Enabled(s, e) && |s.checker.calls| <= id < |Apply(o, s, e).checker.calls|
    ensures CallKeyed(o, Apply(o, s, e), id)
  {
    var s' := Apply(o, s, e);
    assert e.Arrive?;
    assert s'.callers[|s.callers|].bot == s'.checker.calls[id].bot;
  }

  lemma OldCallKeyed(o: Options, s: System, e: Event, id: nat)
    requires Enabled(s, e) && id < |s.checker.calls| && CallKeyed(o, s, id)
    ensures id < |Apply(o, s, e).checker.calls| && CallKeyed(o, Apply(o, s, e), id)
  {
    StepExtends(o, s, e);
    var s' := Apply(o, s, e);
    assert CallExtends(s.checker, s'.checker, id);
    AskedForKept(s, s', s.checker.calls[id].bot, s.checker.calls[id].chat);
  }

  lemma OldCallerKept(o: Options, s: System, s': System, i: nat)
    requires i < |s.callers| && CallerOk(o, s, i)
    requires CallsExtend(s.checker, s'.checker) && CallersExtend(s, s')
    requires s'.callers[i].status == s.callers[i].status
    requires forall id :: 0 <= id < |s.checker.calls| ==>
               s.checker.calls[id].stage.Unfinished() && !s'.checker.calls[id].stage.Unfinished() ==>
               s.now <= s'.checker.calls[id].stage.at
    ensures CallerOk(o, s', i)
  {
    var caller := s.callers[i];
    match caller.status {
      case FromCache(member, at) =>
        var key := o.Key(caller.bot, caller.chat);
        var t :| HasSource(s.checker, key, member, t) && t <= at < t + o.TtlOf(member);
        SourceKept(s.checker, s'.checker, key, member, t);
      case Waiting(c) => assert CallExtends(s.checker, s'.checker, c);
      case FromCall(c, _, _) => assert CallExtends(s.checker, s'.checker, c);
      case _ =>
    }
  }

  lemma NewCallerOk(o: Options, s: System, bot: string, chat: string)
    requires Inv(o, s)
    ensures CallerOk(o, Apply(o, s, Arrive(bot, chat)), |s.callers|)
  {
    match BeginCheck(o, s.checker, s.now, bot, chat).1 {
      case Cached(member) => CachedCallerOk(o, s, bot, chat, member);
      case Wait(call) => WaitingCallerOk(o, s, bot, chat, call);
      case Busy =>
    }
  }

  lemma CachedCallerOk(o: Options, s: System, bot: string, chat: string, member: bool)
    requires CacheHasSources(o, s.checker) && CallsKeyed(o, s)
    requires BeginCheck(o, s.checker, s.now, bot, chat).1 == Cached(member)
    ensures CallerOk(o, Apply(o, s, Arrive(bot, chat)), |s.callers|)
  {
    var s', key := Apply(o, s, Arrive(bot, chat)), o.Key(bot, chat);
    var entry := s.checker.cache[key];
    var at := entry.expires - o.TtlOf(entry.member);
    assert EntryHasSource(o, s.checker, key);
    SourceNotLater(o, s, key, entry.member, at);
    assert s'.checker == s.checker && HasSource(s'.checker, key, member, at);
  }

  lemma WaitingCallerOk(o: Options, s: System, bot: string, chat: string, call: nat)
    requires OneLookupPerKey(s.checker) && BeginCheck(o, s.checker, s.now, bot, chat).1 == Wait(call)
    ensures CallerOk(o, Apply(o, s, Arrive(bot, chat)), |s.callers|)
  {
    var key := o.Key(bot, chat);
    if key in s.checker.inflight {
      assert InflightOk(s.checker, key);
    }
  }

  lemma SourceNotLater(o: Options, s: System, key: string, member: bool, at: int)
    requires CallsKeyed(o, s) && HasSource(s.checker, key, member, at)
    ensures at <= s.now
  {
    var id :| AnsweredAt(s.checker, id, key, member, at);
    assert CallKeyed(o, s, id);
  }

  lemma FinishedNow(o: Options, s: System, e: Event, id: nat)
    requires Enabled(s, e) && id < |s.checker.calls|
    requires s.checker.calls[id].stage.Unfinished() && !Apply(o, s, e).checker.calls[id].stage.Unfinished()
    ensures Apply(o, s, e).checker.calls[id].stage.at == s.now
  {}

  lemma CallersKept(o: Options, s: System, e: Event)
    requires Inv(o, s) && Enabled(s, e)
    ensures CallersOk(o, Apply(o, s, e))
  {
    StepExtends(o, s, e);
    var s' := Apply(o, s, e);
    forall id | 0 <= id < |s.checker.calls|
                && s.checker.calls[id].stage.Unfinished() && !s'.checker.calls[id].stage.Unfinished()
      ensures s.now <= s'.checker.calls[id].stage.at
    {
      FinishedNow(o, s, e, id);
    }
    forall i | 0 <= i < |s'.callers|
      ensures CallerOk(o, s', i)
    {
      if i == |s.callers| {
        NewCallerOk(o, s, e.bot, e.chat);
      } else {
        assert CallerOk(o, s, i);
        if s'.callers[i].status == s.callers[i].status {
          OldCallerKept(o, s, s', i);
        } else if e.Receive? {
          assert CallKeyed(o, s, s.callers[i].status.call);
        }
      }
    }
  }

  lemma {:induction false} InvHolds(o: Options, events: seq<Event>)
    ensures Run(o, events).At? ==> Inv(o, Run(o, events).state)
  {
    if events != [] && Run(o, events).At? {
      var before := events[..|events| - 1];
      InvHolds(o, before);
      var s, e := Run(o, before).state, events[|events| - 1];
      CheckerKept(o, s, e);
      SourcesKept(o, s, e);
      CallsStayKeyed(o, s, e);
      CallersKept(o, s, e);
    }
  }

  // ---- what holds in every reachable state --------------------------------------------------------

  /** At most one lookup per key is under way, and it is the one in the in-flight table; a key is
      never cached and in flight at once; both tables stay within their bounds. */
  lemma LookupsAreCollapsed(o: Options, events: seq<Event>, s: System)
    requires Run(o, events) == At(s)
    ensures forall i, j ::
              (0 <= i < |s.checker.calls| && 0 <= j < |s.checker.calls|
               && s.checker.calls[i].stage.Unfinished() && s.checker.calls[j].stage.Unfinished()
               && s.checker.calls[i].key == s.checker.calls[j].key) ==> i == j
    ensures forall i :: 0 <= i < |s.checker.calls| && s.checker.calls[i].stage.Unfinished() ==>
              s.checker.calls[i].key in s.checker.inflight && s.checker.inflight[s.checker.calls[i].key] == i
    ensures forall k :: k in s.checker.inflight ==>
              var i := s.checker.inflight[k];
              i < |s.checker.calls| && s.checker.calls[i].stage.Unfinished() && s.checker.calls[i].key == k
    ensures s.checker.cache.Keys !! s.checker.inflight.Keys
    ensures |s.checker.inflight| <= MAX_INFLIGHT && |s.checker.cache| <= MAX_ENTRIES
  {
    InvHolds(o, events);
    var c := s.checker;
    forall i | 0 <= i < |c.calls| && c.calls[i].stage.Unfinished()
      ensures c.calls[i].key in c.inflight && c.inflight[c.calls[i].key] == i
    {
      assert Tracked(c, i);
    }
    forall k | k in c.inflight
      ensures c.inflight[k] < |c.calls| && c.calls[c.inflight[k]].stage.Unfinished() && c.calls[c.inflight[k]].key == k
    {
      assert InflightOk(c, k);
    }
  }

  /** No chat id anyone asked about has a NUL in it. */
  predicate ChatsNulFree(s: System) {
    forall i :: 0 <= i < |s.callers| ==> NulFree(s.callers[i].chat)
  }

  ghost predicate SameQuestion(o: Options, call: Call, caller: Caller) {
    call.bot == caller.bot && SameLetters(o, call.chat, caller.chat)
  }

  lemma SameKeySameQuestion(o: Options, s: System, i: nat, id: nat)
    requires Inv(o, s) && KeepsNul(o) && ChatsNulFree(s)
    requires i < |s.callers| && id < |s.checker.calls|
    requires s.checker.calls[id].key == o.Key(s.callers[i].bot, s.callers[i].chat)
    ensures SameQuestion(o, s.checker.calls[id], s.callers[i])
  {
    assert CallKeyed(o, s, id);
    var call := s.checker.calls[id];
    var j :| 0 <= j < |s.callers| && s.callers[j].bot == call.bot && s.callers[j].chat == call.chat;
    assert NulFree(call.chat);
    KeySeparates(o, call.bot, call.chat, s.callers[i].bot, s.callers[i].chat);
  }

  /** A cached answer given at time `at` is that of a successful lookup of the same bot and the same
      chat up to case, stored no later than `at` and less than one lifetime of that answer before. */
  lemma CachedAnswerIsFresh(o: Options, events: seq<Event>, s: System, i: nat) returns (id: nat)
    requires Run(o, events) == At(s) && KeepsNul(o) && ChatsNulFree(s)
    requires i < |s.callers| && s.callers[i].status.FromCache?
    ensures id < |s.checker.calls| && SameQuestion(o, s.checker.calls[id], s.callers[i])
    ensures var stage, status := s.checker.calls[id].stage, s.callers[i].status;
            && !stage.Unfinished() && stage.outcome == Answer(status.member)
            && stage.at <= status.at < stage.at + o.TtlOf(status.member)
  {
    InvHolds(o, events);
    assert CallerOk(o, s, i);
    var caller := s.callers[i];
    var key := o.Key(caller.bot, caller.chat);
    var t :| HasSource(s.checker, key, caller.status.member, t)
             && t <= caller.status.at < t + o.TtlOf(caller.status.member);
    var found :| AnsweredAt(s.checker, found, key, caller.status.member, t);
    id := found;
    SameKeySameQuestion(o, s, i, id);
  }

  /** An uncached answer is the outcome of the shared call the caller joined, about the same bot and
      chat, and it was stored after the caller had arrived. */
  lemma SharedAnswerIsFaithful(o: Options, events: seq<Event>, s: System, i: nat)
    requires Run(o, events) == At(s) && KeepsNul(o) && ChatsNulFree(s)
    requires i < |s.callers| && s.callers[i].status.FromCall?
    ensures var status := s.callers[i].status;
            && status.call < |s.checker.calls|
            && SameQuestion(o, s.checker.calls[status.call], s.callers[i])
            && s.checker.calls[status.call].stage.Released?
            && s.checker.calls[status.call].stage.outcome == status.outcome
            && s.callers[i].arrived <= s.checker.calls[status.call].stage.at <= status.at
  {
    InvHolds(o, events);
    assert CallerOk(o, s, i);
    SameKeySameQuestion(o, s, i, s.callers[i].status.call);
  }

  /** Nobody waits for nothing: a waiter's call is under way and in the table, or it has been stored
      and only the release is left. */
  lemma WaitersAreServed(o: Options, events: seq<Event>, s: System, i: nat)
    requires Run(o, events) == At(s) && i < |s.callers| && s.callers[i].status.Waiting?
    ensures var call := s.callers[i].status.call;
            && call < |s.checker.calls|
            && if s.checker.calls[call].stage.Unfinished()
               then var key := s.checker.calls[call].key; key in s.checker.inflight && s.checker.inflight[key] == call
               else Enabled(s, Release(call)) || Enabled(s, Receive(i))
  {
    InvHolds(o, events);
    assert CallerOk(o, s, i);
    assert Tracked(s.checker, s.callers[i].status.call);
  }

  /** Only a successful lookup puts anything into the cache: failures and departures store nothing,
      and nothing else does. */
  lemma OnlySuccessIsStored(o: Options, s: System, e: Event, k: string)
    requires Enabled(s, e) && k in Apply(o, s, e).checker.cache
    requires k !in s.checker.cache || s.checker.cache[k] != Apply(o, s, e).checker.cache[k]
    ensures e.Finish? && s.checker.calls[e.call].key == k && s.checker.calls[e.call].stage.outcome.Answer?
  {
    EntryComesFrom(o, s, e, k);
  }

  /** A failed lookup is forgotten: the next caller with the same key starts a new one, for
      which the finished one has left room. */
  lemma FailureIsNotRemembered(o: Options, events: seq<Event>, s: System, id: nat, error: string)
    requires Run(o, events) == At(s)
    requires id < |s.checker.calls| && s.checker.calls[id].stage == LookedUp(Failed(error))
    ensures var s' := Apply(o, s, Finish(id));
            var call := s.checker.calls[id];
            && s'.checker.cache == s.checker.cache
            && BeginCheck(o, s'.checker, s'.now, call.bot, call.chat).1 == Wait(|s.checker.calls|)
  {
    InvHolds(o, events);
    var c := s.checker;
    assert Tracked(c, id) && CallKeyed(o, s, id);
    RemovedIsSmaller(c.inflight, c.calls[id].key);
  }

  // ---- what a caller meets on arrival ---------------------------------------------------------------

  /** An answer that may still be given at time `now`. */
  predicate LiveAnswer(s: System, key: string, member: bool) {
    key in s.checker.cache && s.now < s.checker.cache[key].expires && s.checker.cache[key].member == member
  }

  predicate HasLiveAnswer(s: System, key: string) {
    LiveAnswer(s, key, true) || LiveAnswer(s, key, false)
  }

  ghost predicate IsUnderWay(s: System, key: string, id: int) {
    0 <= id < |s.checker.calls| && s.checker.calls[id].key == key && s.checker.calls[id].stage.Unfinished()
  }

  function UnfinishedCalls(c: State): set<nat> {
    set id: nat | id < |c.calls| && c.calls[id].stage.Unfinished()
  }

  /** How the caller who arrives now stands right afterwards. */
  function StatusOnArrival(o: Options, s: System, bot: string, chat: string): Status {
    Apply(o, s, Arrive(bot, chat)).callers[|s.callers|].status
  }

  /** A stored answer, positive or negative, is given exactly while it is live, and giving it changes nothing. */
  lemma LiveAnswerIsGiven(o: Options, s: System, bot: string, chat: string, member: bool)
    ensures StatusOnArrival(o, s, bot, chat) == FromCache(member, s.now) <==> LiveAnswer(s, o.Key(bot, chat), member)
    ensures LiveAnswer(s, o.Key(bot, chat), member) ==> Apply(o, s, Arrive(bot, chat)).checker == s.checker
    ensures StatusOnArrival(o, s, bot, chat).FromCache? ==> HasLiveAnswer(s, o.Key(bot, chat))
  {}

  /** Without a live answer a caller joins the lookup of its key that is under way, however many there are. */
  lemma CallUnderWayIsJoined(o: Options, events: seq<Event>, s: System, bot: string, chat: string, id: nat)
    requires Run(o, events) == At(s) && !HasLiveAnswer(s, o.Key(bot, chat)) && IsUnderWay(s, o.Key(bot, chat), id)
    ensures StatusOnArrival(o, s, bot, chat) == Waiting(id)
    ensures Apply(o, s, Arrive(bot, chat)).checker.calls == s.checker.calls
  {
    InvHolds(o, events);
    assert Tracked(s.checker, id);
  }

  lemma InjectiveSize(m: map<string, nat>, values: set<nat>)
    requires forall k, l :: k in m && l in m && m[k] == m[l] ==> k == l
    requires forall v :: v in values <==> exists k :: k in m && m[k] == v
    ensures |m| == |values|
  {
    if k :| k in m {
      RemovedIsSmaller(m, k);
      assert forall l :: l in m - {k} ==> l in m && m[l] != m[k];
      forall v
        ensures v in values - {m[k]} <==> exists l :: l in m - {k} && (m - {k})[l] == v
      {
        if v in values - {m[k]} {
          var l :| l in m && m[l] == v;
          assert l in m - {k};
        }
      }
      InjectiveSize(m - {k}, values - {m[k]});
    } else {
      assert m == map[];
    }
  }

  /** The in-flight table has one line for every unfinished lookup. */
  lemma TableCounts(c: State)
    requires OneLookupPerKey(c)
    ensures |c.inflight| == |UnfinishedCalls(c)|
  {
    forall k | k in c.inflight
      ensures InflightOk(c, k)
    {}
    forall v
      ensures v in UnfinishedCalls(c) <==> exists k :: k in c.inflight && c.inflight[k] == v
    {
      if v in UnfinishedCalls(c) { assert Tracked(c, v); }
      if k :| k in c.inflight && c.inflight[k] == v { assert InflightOk(c, k); }
    }
    InjectiveSize(c.inflight, UnfinishedCalls(c));
  }

  ghost predicate SomeUnderWay(s: System, key: string) {
    exists id :: IsUnderWay(s, key, id)
  }

  lemma TableKnowsUnderWay(s: System, key: string)
    requires OneLookupPerKey(s.checker)
    ensures key in s.checker.inflight <==> SomeUnderWay(s, key)
  {
    if key in s.checker.inflight {
      assert InflightOk(s.checker, key);
      assert IsUnderWay(s, key, s.checker.inflight[key]);
    }
    if id :| IsUnderWay(s, key, id) { assert Tracked(s.checker, id); }
  }

  lemma RefusedByTable(o: Options, s: System, bot: string, chat: string)
    ensures StatusOnArrival(o, s, bot, chat).Refused? <==>
            var key := o.Key(bot, chat);
            !HasLiveAnswer(s, key) && key !in s.checker.inflight && |s.checker.inflight| >= MAX_INFLIGHT
  {}

  /** A caller is refused exactly when there is nothing to give or join and 32 lookups are under way. */
  lemma RefusedExactly(o: Options, events: seq<Event>, s: System, bot: string, chat: string)
    requires Run(o, events) == At(s)
    ensures StatusOnArrival(o, s, bot, chat).Refused? <==>
            && !HasLiveAnswer(s, o.Key(bot, chat)) && !SomeUnderWay(s, o.Key(bot, chat))
            && |UnfinishedCalls(s.checker)| == MAX_INFLIGHT
  {
    InvHolds(o, events);
    RefusedByTable(o, s, bot, chat);
    TableCounts(s.checker);
    TableKnowsUnderWay(s, o.Key(bot, chat));
  }

  /** In all other cases a new lookup begins, of the chat asked about, and the caller waits for it. */
  lemma NewLookupBegins(o: Options, events: seq<Event>, s: System, bot: string, chat: string)
    requires Run(o, events) == At(s)
    requires !HasLiveAnswer(s, o.Key(bot, chat)) && !SomeUnderWay(s, o.Key(bot, chat))
    requires |UnfinishedCalls(s.checker)| < MAX_INFLIGHT
    ensures StatusOnArrival(o, s, bot, chat) == Waiting(|s.checker.calls|)
    ensures Apply(o, s, Arrive(bot, chat)).checker.calls
         == s.checker.calls + [Call(bot, chat, o.Key(bot, chat), LookingUp)]
  {
    InvHolds(o, events);
    TableCounts(s.checker);
    TableKnowsUnderWay(s, o.Key(bot, chat));
  }

  // ---- an answer serves its whole lifetime ------------------------------------------------------------

  /** Storing one more answer now would throw all others away: the cache is full of live ones. */
  predicate FullOfLive(s: System) {
    |s.checker.cache| == MAX_ENTRIES && forall k :: k in s.checker.cache ==> s.now < s.checker.cache[k].expires
  }

  predicate Empties(s: System, e: Event) {
    && e.Finish? && e.call < |s.checker.calls| && s.checker.calls[e.call].stage.LookedUp?
    && s.checker.calls[e.call].stage.outcome.Answer? && FullOfLive(s)
  }

  ghost predicate NeverEmptied(o: Options, events: seq<Event>, from: nat) {
    forall n :: from <= n < |events| ==> Run(o, events[..n]).At? && !Empties(Run(o, events[..n]).state, events[n])
  }

  lemma LiveKeys(cache: map<string, Entry>, now: int)
    ensures Live(cache, now).Keys <= cache.Keys
    ensures |Live(cache, now).Keys| == |Live(cache, now)| && |cache.Keys| == |cache|
  {}

  lemma SmallerSet(a: set<string>, b: set<string>)
    requires a <= b
    ensures |a| <= |b|
  {
    if a != {} {
      var x :| x in a;
      SmallerSet(a - {x}, b - {x});
    }
  }

  /** A sweep of the full cache spares the live entries unless all are live. */
  lemma SweepSpares(cache: map<string, Entry>, now: int, k: string)
    requires |cache| == MAX_ENTRIES && k in cache && now < cache[k].expires
    ensures k in Swept(cache, now) <==> exists l :: l in cache && cache[l].expires <= now
    ensures k in Swept(cache, now) ==> Swept(cache, now)[k] == cache[k]
  {
    LiveKeys(cache, now);
    if l :| l in cache && cache[l].expires <= now {
      SmallerSet(Live(cache, now).Keys, cache.Keys - {l});
    } else {
      assert Live(cache, now) == cache;
    }
  }

  lemma AnswerSpares(o: Options, s: System, id: nat, k: string)
    requires Inv(o, s) && Enabled(s, Finish(id)) && s.checker.calls[id].stage.outcome.Answer?
    requires k in s.checker.cache && s.now < s.checker.cache[k].expires
    ensures var cache := Apply(o, s, Finish(id)).checker.cache;
            if FullOfLive(s) then k !in cache else k in cache && cache[k] == s.checker.cache[k]
  {
    var c := s.checker;
    assert Tracked(c, id);
    if |c.cache| == MAX_ENTRIES { SweepSpares(c.cache, s.now, k); }
    var call := c.calls[id];
    assert Apply(o, s, Finish(id)).checker.cache == WithAnswer(o, c.cache, call.key, call.stage.outcome.member, s.now);
  }

  lemma ArrivalSpares(o: Options, s: System, bot: string, chat: string, k: string)
    requires k in s.checker.cache && s.now < s.checker.cache[k].expires
    ensures var cache := Apply(o, s, Arrive(bot, chat)).checker.cache; k in cache && cache[k] == s.checker.cache[k]
  {}

  /** A step keeps an entry that outlives it, unless it empties the cache. */
  lemma LiveEntryStays(o: Options, s: System, e: Event, k: string)
    requires Inv(o, s) && Enabled(s, e)
    requires k in s.checker.cache && Apply(o, s, e).now < s.checker.cache[k].expires
    ensures var cache := Apply(o, s, e).checker.cache;
            if Empties(s, e) then k !in cache else k in cache && cache[k] == s.checker.cache[k]
  {
    match e {
      case Finish(id) => if s.checker.calls[id].stage.outcome.Answer? { AnswerSpares(o, s, id, k); }
      case Arrive(bot, chat) => ArrivalSpares(o, s, bot, chat, k);
      case _ =>
    }
  }

  ghost predicate Holds(s: System, key: string, entry: Entry) {
    key in s.checker.cache && s.checker.cache[key] == entry
  }

  /** Both answers of a lookup are stored, each with its own lifetime. */
  lemma AnswerIsStored(o: Options, s: System, id: nat, member: bool)
    requires Enabled(s, Finish(id)) && s.checker.calls[id].stage.outcome == Answer(member)
    ensures Holds(Apply(o, s, Finish(id)), s.checker.calls[id].key, Entry(member, s.now + o.TtlOf(member)))
  {}

  lemma NeverEmptiedBefore(o: Options, events: seq<Event>, from: nat)
    requires |events| > from && NeverEmptied(o, events, from)
    ensures NeverEmptied(o, events[..|events| - 1], from)
  {
    var before := events[..|events| - 1];
    forall n | from <= n < |before|
      ensures Run(o, before[..n]).At? && !Empties(Run(o, before[..n]).state, before[n])
    {
      assert before[..n] == events[..n];
    }
  }

  lemma HeldOneStepMore(o: Options, events: seq<Event>, from: nat, s: System, k: string, entry: Entry)
    requires |events| > from && NeverEmptied(o, events, from)
    requires Run(o, events) == At(s) && s.now < entry.expires
    ensures var before := Run(o, events[..|events| - 1]);
            before.At? && before.state.now <= s.now && (Holds(before.state, k, entry) ==> Holds(s, k, entry))
  {
    var n := |events| - 1;
    var before := Run(o, events[..n]).state;
    InvHolds(o, events[..n]);
    if Holds(before, k, entry) { LiveEntryStays(o, before, events[n], k); }
  }

  /** An entry stays until it expires or the cache is emptied. */
  lemma {:induction false} EntryStays(o: Options, events: seq<Event>, from: nat, s: System, k: string, entry: Entry)
    requires from <= |events| && NeverEmptied(o, events, from)
    requires Run(o, events[..from]).At? && Holds(Run(o, events[..from]).state, k, entry)
    requires Run(o, events) == At(s) && s.now < entry.expires
    ensures Holds(s, k, entry)
    decreases |events|
  {
    if from == |events| {
      assert events[..from] == events;
    } else {
      var before := events[..|events| - 1];
      assert before[..from] == events[..from];
      NeverEmptiedBefore(o, events, from);
      HeldOneStepMore(o, events, from, s, k, entry);
      EntryStays(o, before, from, Run(o, before).state, k, entry);
    }
  }

  lemma OneStepMore(o: Options, events: seq<Event>, n: nat, s: System)
    requires n < |events| && Run(o, events[..n]) == At(s) && Enabled(s, events[n])
    ensures Run(o, events[..n + 1]) == At(Apply(o, s, events[n]))
  {
    assert events[..n + 1][..n] == events[..n];
  }

  /** An answer stored at some time is given to everyone who asks the same before its lifetime is over, unless
      the cache was emptied because it was full of live answers. */
  lemma AnswerIsServed(o: Options, events: seq<Event>, n: nat, s0: System, s: System, id: nat, member: bool,
                       bot: string, chat: string)
    requires n < |events| && events[n] == Finish(id) && Run(o, events[..n]) == At(s0) && Run(o, events) == At(s)
    requires Enabled(s0, Finish(id)) && s0.checker.calls[id].stage.outcome == Answer(member)
    requires SameQuestion(o, s0.checker.calls[id], Caller(bot, chat, s.now, Refused))
    requires NeverEmptied(o, events, n + 1) && s.now < s0.now + o.TtlOf(member)
    ensures StatusOnArrival(o, s, bot, chat) == FromCache(member, s.now)
  {
    AnswerIsStored(o, s0, id, member);
    OneStepMore(o, events, n, s0);
    EntryStays(o, events, n + 1, s, s0.checker.calls[id].key, Entry(member, s0.now + o.TtlOf(member)));
    InvHolds(o, events[..n]);
    assert CallKeyed(o, s0, id);
    FoldComparesLetters(o, s0.checker.calls[id].chat, chat);
    LiveAnswerIsGiven(o, s, bot, chat, member);
  }
}
