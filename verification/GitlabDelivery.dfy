/** Where GitLab messages may go: senderScopeTargets of internal/server/handler_gitlab.go and the
    three delivery lists of handleGitlab, for a sender the startup builder accepted. */
module GitlabDelivery {
  import opened ChatRefs
  import opened Lists
  import opened GitlabSender
  import Routing = GitlabRouting
  import opened Wrappers

  datatype Answer = Allowed(targets: seq<string>) | Refused(raw: string)

  /** The scope key a requested chat stands for, with the bot it was requested with. */
  function Canonical(scope: map<string, Target>, resolve: string -> Resolved, raw: string): Option<(string, string)> {
    if raw in scope then Some((raw, ""))
    else match resolve(raw)
      case Unresolved(_) => None
      case Resolved(id, bot) => if id != "" && id in scope then Some((id, bot)) else None
  }

  predicate InScope(scope: map<string, Target>, resolve: string -> Resolved, raw: string) {
    match Canonical(scope, resolve, raw)
    case None => false
    case Some((id, bot)) => id in scope && !scope[id].BotConflict(raw, bot)
  }

  function CanonicalId(scope: map<string, Target>, resolve: string -> Resolved, raw: string): string {
    match Canonical(scope, resolve, raw) case Some((id, _)) => id case None => ""
  }

  function CanonicalIds(scope: map<string, Target>, resolve: string -> Resolved, requested: seq<string>): seq<string> {
    seq(|requested|, i requires 0 <= i < |requested| => CanonicalId(scope, resolve, requested[i]))
  }

  function TargetsAt(scope: map<string, Target>, ids: seq<string>): seq<string>
    requires forall id :: id in ids ==> id in scope
  {
    seq(|ids|, i requires 0 <= i < |ids| => scope[ids[i]].target)
  }

  method Canonicalize(scope: map<string, Target>, resolve: string -> Resolved, raw: string)
    returns (ok: bool, canonical: string)
    ensures ok <==> InScope(scope, resolve, raw)
    ensures ok ==> canonical == CanonicalId(scope, resolve, raw) && canonical in scope
  {
    canonical := raw;
    var requestedBot := "";
    if canonical !in scope {
      var resolved := resolve(raw);
      if resolved.Unresolved? || resolved.id == "" {
        return false, "";
      }
      canonical, requestedBot := resolved.id, resolved.bot;
    }
    if canonical !in scope {
      return false, "";
    }
    return !scope[canonical].BotConflict(raw, requestedBot), canonical;
  }

  lemma NextCanonical(scope: map<string, Target>, resolve: string -> Resolved, requested: seq<string>, i: nat)
    requires i < |requested|
    ensures CanonicalIds(scope, resolve, requested[..i + 1])
         == CanonicalIds(scope, resolve, requested[..i]) + [CanonicalId(scope, resolve, requested[i])]
  {}

  ghost predicate AllIn(ids: seq<string>, scope: map<string, Target>) {
    forall id :: id in ids ==> id in scope
  }

  /** The loop's variables after the in-scope references `done`. */
  ghost predicate Collected(scope: map<string, Target>, resolve: string -> Resolved, done: seq<string>,
                            seen: set<string>, targets: seq<string>)
  {
    var ids := CanonicalIds(scope, resolve, done);
    && (forall id :: id in seen <==> id in ids)
    && AllIn(Dedup(ids), scope) && targets == TargetsAt(scope, Dedup(ids))
  }

  lemma CollectNext(scope: map<string, Target>, resolve: string -> Resolved, requested: seq<string>, i: nat,
                    seen: set<string>, targets: seq<string>)
    requires i < |requested| && Collected(scope, resolve, requested[..i], seen, targets)
    requires CanonicalId(scope, resolve, requested[i]) in scope
    ensures var canonical := CanonicalId(scope, resolve, requested[i]);
            if canonical in seen then Collected(scope, resolve, requested[..i + 1], seen, targets)
            else Collected(scope, resolve, requested[..i + 1], seen + {canonical}, targets + [scope[canonical].target])
  {
    var canonical := CanonicalId(scope, resolve, requested[i]);
    var ids := CanonicalIds(scope, resolve, requested[..i]);
    NextCanonical(scope, resolve, requested, i);
    DedupAppend(ids, canonical);
    if canonical !in seen {
      assert TargetsAt(scope, Dedup(ids) + [canonical]) == targets + [scope[canonical].target];
    } else {
      assert Dedup(ids) + [] == Dedup(ids);
    }
  }

  ghost predicate AllInScope(scope: map<string, Target>, resolve: string -> Resolved, requested: seq<string>, n: nat)
    requires n <= |requested|
  {
    forall j :: 0 <= j < n ==> InScope(scope, resolve, requested[j])
  }

  ghost predicate FirstRefused(scope: map<string, Target>, resolve: string -> Resolved, requested: seq<string>,
                               raw: string)
  {
    exists i :: 0 <= i < |requested| && requested[i] == raw && !InScope(scope, resolve, raw)
                && AllInScope(scope, resolve, requested, i)
  }

  method SenderScopeTargets(requested: seq<string>, scope: map<string, Target>, resolve: string -> Resolved)
    returns (r: Answer)
    ensures r.Allowed? <==> forall raw :: raw in requested ==> InScope(scope, resolve, raw)
    ensures r.Allowed? ==>
              var ids := Dedup(CanonicalIds(scope, resolve, requested));
              AllIn(ids, scope) && r.targets == TargetsAt(scope, ids)
    ensures r.Refused? ==> FirstRefused(scope, resolve, requested, r.raw)
  {
    var targets: seq<string> := [];
    var seen: set<string> := {};
    for i := 0 to |requested|
      invariant AllInScope(scope, resolve, requested, i)
      invariant Collected(scope, resolve, requested[..i], seen, targets)
    {
      var ok, canonical := Canonicalize(scope, resolve, requested[i]);
      if !ok {
        assert requested[i] in requested;
        return Refused(requested[i]);
      }
      CollectNext(scope, resolve, requested, i, seen, targets);
      if canonical in seen {
        continue;
      }
      seen := seen + {canonical};
      targets := targets + [scope[canonical].target];
    }
    assert requested[..|requested|] == requested;
    assert forall raw :: raw in requested ==> InScope(scope, resolve, raw);
    return Allowed(targets);
  }

  // ---- every delivery list is safe -------------------------------------------------------------

  /** `target` is a configured target that resolves to exactly the scope entry it stands under. */
  ghost predicate DeliversInScope(chats: Chats, sender: Sender, target: string) {
    var resolved := ResolveChatRef(chats, target);
    && target in sender.targets
    && resolved.Resolved? && IsUUID(resolved.id)
    && resolved.id in sender.scope && sender.scope[resolved.id] == Target(target, resolved.bot)
  }

  /** Every target delivers in scope, and no two of them are the same chat. */
  ghost predicate SafeDelivery(chats: Chats, sender: Sender, targets: seq<string>) {
    && (forall t :: t in targets ==> DeliversInScope(chats, sender, t))
    && forall i, j :: 0 <= i < j < |targets| ==> !SameChatRefs(chats, targets[i], targets[j])
  }

  /** The references that become targets have UUID ids; what other aliases have does not matter. */
  ghost predicate TargetsAreUUIDs(chats: Chats, sn: SenderConfig) {
    forall r :: r in TargetRefs(sn) && ResolveChatRef(chats, r).Resolved? ==> IsUUID(ResolveChatRef(chats, r).id)
  }

  /** A sender as serve startup leaves it. */
  ghost predicate BuiltSender(chats: Chats, multiBot: bool, sn: SenderConfig, sender: Sender) {
    TargetsAreUUIDs(chats, sn) && Acceptable(chats, multiBot, sn) && IsSenderFor(chats, sn, sender)
  }

  lemma TargetDeliversInScope(chats: Chats, multiBot: bool, sn: SenderConfig, sender: Sender, target: string)
    requires BuiltSender(chats, multiBot, sn, sender) && target in TargetRefs(sn)
    ensures DeliversInScope(chats, sender, target)
  {
    assert GoodTarget(chats, multiBot, target);
    var resolved := ResolveChatRef(chats, target);
    ScopeMeaning(r => TargetKey(chats, r), TargetRefs(sn), resolved.id);
    var entry := sender.scope[resolved.id].target;
    assert entry in TargetRefs(sn) && SameChatRefs(chats, entry, target);
  }

  lemma ScopeEntryDelivers(chats: Chats, multiBot: bool, sn: SenderConfig, sender: Sender, id: string)
    requires BuiltSender(chats, multiBot, sn, sender) && id in sender.scope
    ensures DeliversInScope(chats, sender, sender.scope[id].target)
    ensures ResolveChatRef(chats, sender.scope[id].target).id == id
  {
    ScopeMeaning(r => TargetKey(chats, r), TargetRefs(sn), id);
    TargetDeliversInScope(chats, multiBot, sn, sender, sender.scope[id].target);
  }

  lemma DistinctTargetsAreSafe(chats: Chats, multiBot: bool, sn: SenderConfig, sender: Sender, targets: seq<string>)
    requires BuiltSender(chats, multiBot, sn, sender)
    requires Distinct(targets) && forall t :: t in targets ==> t in TargetRefs(sn)
    ensures SafeDelivery(chats, sender, targets)
  {
    forall t | t in targets
      ensures DeliversInScope(chats, sender, t)
    {
      TargetDeliversInScope(chats, multiBot, sn, sender, t);
    }
    forall i, j | 0 <= i < j < |targets|
      ensures !SameChatRefs(chats, targets[i], targets[j])
    {
      assert targets[i] in targets && targets[j] in targets;
    }
  }

  /** The default delivery of a sender without routes. */
  lemma DefaultDeliveryIsSafe(chats: Chats, multiBot: bool, sn: SenderConfig, sender: Sender)
    requires BuiltSender(chats, multiBot, sn, sender)
    ensures SafeDelivery(chats, sender, sender.targets)
  {
    DedupDistinct(TargetRefs(sn));
    DistinctTargetsAreSafe(chats, multiBot, sn, sender, sender.targets);
  }

  lemma {:induction false} RewrittenAreTargets(chats: Chats, targets: seq<string>, refs: seq<string>)
    requires NoRouteFault(chats, targets, refs)
    ensures forall t :: t in Rewrite(chats, targets, refs) ==> t in targets
  {
    if refs != [] {
      var n := |refs| - 1;
      assert RouteFault(chats, targets, refs[n]).None?;
      assert NoRouteFault(chats, targets, refs[..n]);
      RewrittenAreTargets(chats, targets, refs[..n]);
      ScopeMeaning(r => TargetKey(chats, r), targets, ResolveChatRef(chats, refs[n]).id);
    }
  }

  /** Delivery by routes: whatever the rules match on, as long as their chats are the built ones. */
  lemma RouteDeliveryIsSafe(chats: Chats, multiBot: bool, sn: SenderConfig, sender: Sender,
                            routes: seq<Routing.Route>, view: Routing.View)
    requires BuiltSender(chats, multiBot, sn, sender) && CarryRoutes(routes, sender)
    ensures SafeDelivery(chats, sender, DeliveryList(routes, view))
  {
    var targets := DeliveryList(routes, view);
    forall t | t in targets
      ensures t in TargetRefs(sn)
    {
      Routing.DeliveryOfEvent(routes, view, t);
      var i :| 0 <= i < |routes| && t in routes[i].chats;
      if sn.chats == [] {
        ConcatHas(sn.routes, i, t);
      } else {
        RewrittenAreTargets(chats, sn.chats, sn.routes[i]);
      }
    }
    DedupDistinct(Routing.ChatsOf(routes, Routing.Selected(routes, view, |routes|)));
    DistinctTargetsAreSafe(chats, multiBot, sn, sender, targets);
  }

  /** The list of an event by the rules as they were built. */
  ghost function DeliveryList(routes: seq<Routing.Route>, view: Routing.View): seq<string> {
    Dedup(Routing.ChatsOf(routes, Routing.Selected(routes, view, |routes|)))
  }

  ghost predicate Counts(routes: seq<Routing.Route>, view: Routing.View, i: nat) {
    i < |routes| && Routing.Applies(routes[i], view) && !Routing.Stopped(routes, view, i)
  }

  /** The compiled rules of a sender carry the chats the builder left in its routes. */
  ghost predicate CarryRoutes(routes: seq<Routing.Route>, sender: Sender) {
    |routes| == |sender.routes| && forall i :: 0 <= i < |routes| ==> routes[i].chats == sender.routes[i]
  }

  /** An event reaches every chat configured for a rule that counts. */
  lemma EveryRoutedChatIsReached(chats: Chats, multiBot: bool, sn: SenderConfig, sender: Sender,
                                 routes: seq<Routing.Route>, view: Routing.View, i: nat, k: nat)
    requires BuiltSender(chats, multiBot, sn, sender) && CarryRoutes(routes, sender)
    requires Counts(routes, view, i) && k < |sn.routes[i]|
    ensures k < |sender.routes[i]| && sender.routes[i][k] in DeliveryList(routes, view)
    ensures StandsFor(chats, sender.routes[i][k], sn.routes[i][k])
  {
    RoutesStandForTheirChats(chats, multiBot, sn, sender, i, k);
    Routing.DeliveryOfEvent(routes, view, sender.routes[i][k]);
    assert routes[i].chats == sender.routes[i];
  }

  /** And it reaches nobody else. */
  lemma OnlyRoutedChatsAreReached(chats: Chats, multiBot: bool, sn: SenderConfig, sender: Sender,
                                  routes: seq<Routing.Route>, view: Routing.View, target: string)
    returns (i: nat, k: nat)
    requires BuiltSender(chats, multiBot, sn, sender) && CarryRoutes(routes, sender)
    requires target in DeliveryList(routes, view)
    ensures Counts(routes, view, i) && i < |sn.routes| && k < |sn.routes[i]|
    ensures StandsFor(chats, target, sn.routes[i][k])
  {
    Routing.DeliveryOfEvent(routes, view, target);
    i :| 0 <= i < |routes| && Routing.Applies(routes[i], view) && !Routing.Stopped(routes, view, i)
         && target in routes[i].chats;
    k :| 0 <= k < |routes[i].chats| && routes[i].chats[k] == target;
    SameLength(chats, multiBot, sn, sender, i);
    RoutesStandForTheirChats(chats, multiBot, sn, sender, i, k);
  }

  lemma SameLength(chats: Chats, multiBot: bool, sn: SenderConfig, sender: Sender, i: nat)
    requires BuiltSender(chats, multiBot, sn, sender) && i < |sn.routes|
    ensures |sender.routes[i]| == |sn.routes[i]|
  {
    if sn.routes[i] != [] {
      RoutesStandForTheirChats(chats, multiBot, sn, sender, i, 0);
    } else if sn.chats != [] {
      assert IsRewritten(chats, sn.chats, sn.routes[i], sender.routes[i]);
    }
  }

  /** What being in scope means of the resolver's answer: a scope key as it is written, or an id under one
      that does not ask for another bot than the target's, unless it is the target itself. */
  lemma InScopeDirectly(scope: map<string, Target>, resolve: string -> Resolved, raw: string)
    ensures InScope(scope, resolve, raw) <==>
            || raw in scope
            || (&& resolve(raw).Resolved? && resolve(raw).id != "" && resolve(raw).id in scope
                && var entry := scope[resolve(raw).id];
                   raw == entry.target || resolve(raw).bot in {"", entry.bot} || entry.bot == "")
    ensures InScope(scope, resolve, raw) ==>
            CanonicalId(scope, resolve, raw) == if raw in scope then raw else resolve(raw).id
  {}

  /** The resolver of a running server: the chats section. */
  function ByConfig(chats: Chats): string -> Resolved {
    raw => ResolveChatRef(chats, raw)
  }

  lemma CanonicalMeaning(chats: Chats, multiBot: bool, sn: SenderConfig, sender: Sender, raw: string)
    requires BuiltSender(chats, multiBot, sn, sender) && InScope(sender.scope, ByConfig(chats), raw)
    ensures var id := CanonicalId(sender.scope, ByConfig(chats), raw);
            && id in sender.scope && sender.scope[id].target in sender.targets
            && StandsFor(chats, sender.scope[id].target, raw)
  {
    var id := CanonicalId(sender.scope, ByConfig(chats), raw);
    InScopeDirectly(sender.scope, ByConfig(chats), raw);
    ScopeEntryDelivers(chats, multiBot, sn, sender, id);
  }

  /** With the chats section as resolver, a requested chat is in scope exactly when it stands for one of the
      sender's targets without contradicting its bot. */
  lemma InScopeExactly(chats: Chats, multiBot: bool, sn: SenderConfig, sender: Sender, raw: string)
    requires BuiltSender(chats, multiBot, sn, sender)
    ensures InScope(sender.scope, ByConfig(chats), raw) <==>
            exists t :: t in sender.targets && StandsFor(chats, t, raw)
  {
    if InScope(sender.scope, ByConfig(chats), raw) { CanonicalMeaning(chats, multiBot, sn, sender, raw); }
    if t :| t in sender.targets && StandsFor(chats, t, raw) {
      TargetDeliversInScope(chats, multiBot, sn, sender, t);
      InScopeDirectly(sender.scope, ByConfig(chats), raw);
    }
  }

  /** Requested chats that are all in scope are all reached, and nobody else is. */
  lemma RequestReachesExactly(chats: Chats, multiBot: bool, sn: SenderConfig, sender: Sender, requested: seq<string>)
    requires BuiltSender(chats, multiBot, sn, sender)
    requires AllInScope(sender.scope, ByConfig(chats), requested, |requested|)
    ensures var ids := Dedup(CanonicalIds(sender.scope, ByConfig(chats), requested));
            && AllIn(ids, sender.scope)
            && (forall raw :: raw in requested ==>
                  exists t :: t in TargetsAt(sender.scope, ids) && StandsFor(chats, t, raw))
            && (forall t :: t in TargetsAt(sender.scope, ids) ==>
                  exists raw :: raw in requested && StandsFor(chats, t, raw))
  {
    var ids := CanonicalIds(sender.scope, ByConfig(chats), requested);
    var once := Dedup(ids);
    forall i | 0 <= i < |requested|
      ensures ids[i] in sender.scope && StandsFor(chats, sender.scope[ids[i]].target, requested[i])
    {
      CanonicalMeaning(chats, multiBot, sn, sender, requested[i]);
    }
    assert AllIn(once, sender.scope);
    var targets := TargetsAt(sender.scope, once);
    forall raw | raw in requested
      ensures exists t :: t in targets && StandsFor(chats, t, raw)
    {
      var i :| 0 <= i < |requested| && requested[i] == raw;
      assert ids[i] in once;
      var j :| 0 <= j < |once| && once[j] == ids[i];
      assert targets[j] in targets;
    }
    forall t | t in targets
      ensures exists raw :: raw in requested && StandsFor(chats, t, raw)
    {
      var j :| 0 <= j < |targets| && targets[j] == t;
      assert once[j] in ids;
      var i :| 0 <= i < |ids| && ids[i] == once[j];
      assert requested[i] in requested;
    }
  }

  /** The targets come in the order in which the request first names their chats. */
  lemma RequestOrderIsKept(chats: Chats, multiBot: bool, sn: SenderConfig, sender: Sender, requested: seq<string>,
                           i: nat, j: nat)
    returns (p: nat, q: nat)
    requires BuiltSender(chats, multiBot, sn, sender)
    requires AllInScope(sender.scope, ByConfig(chats), requested, |requested|)
    requires i < j < |Dedup(CanonicalIds(sender.scope, ByConfig(chats), requested))|
    ensures var ids := Dedup(CanonicalIds(sender.scope, ByConfig(chats), requested));
            && AllIn(ids, sender.scope) && p < q < |requested|
            && var targets := TargetsAt(sender.scope, ids);
               && StandsFor(chats, targets[i], requested[p]) && StandsFor(chats, targets[j], requested[q])
               && forall r :: r in requested[..q] ==> !SameChatRefs(chats, targets[j], r)
  {
    RequestReachesExactly(chats, multiBot, sn, sender, requested);
    var ids := CanonicalIds(sender.scope, ByConfig(chats), requested);
    DedupKeepsOrder(ids, i, j);
    p, q :| 0 <= p < q < |ids| && ids[p] == Dedup(ids)[i] && ids[q] == Dedup(ids)[j]
            && Dedup(ids)[i] !in ids[..p] && Dedup(ids)[j] !in ids[..q];
    CanonicalMeaning(chats, multiBot, sn, sender, requested[p]);
    CanonicalMeaning(chats, multiBot, sn, sender, requested[q]);
    forall r | r in requested[..q]
      ensures !SameChatRefs(chats, sender.scope[ids[q]].target, r)
    {
      var n :| 0 <= n < q && requested[n] == r;
      assert ids[n] == ids[..q][n];
      CanonicalMeaning(chats, multiBot, sn, sender, requested[n]);
      ScopeEntryDelivers(chats, multiBot, sn, sender, ids[n]);
      ScopeEntryDelivers(chats, multiBot, sn, sender, ids[q]);
    }
  }

  /** Delivery to the chats a request names: safe however the request spells them and whatever the
      resolver answers, as long as every one of them is in scope. */
  lemma QueryDeliveryIsSafe(chats: Chats, multiBot: bool, sn: SenderConfig, sender: Sender,
                            requested: seq<string>, resolve: string -> Resolved)
    requires BuiltSender(chats, multiBot, sn, sender)
    requires forall raw :: raw in requested ==> InScope(sender.scope, resolve, raw)
    ensures var ids := Dedup(CanonicalIds(sender.scope, resolve, requested));
            AllIn(ids, sender.scope) && SafeDelivery(chats, sender, TargetsAt(sender.scope, ids))
  {
    var ids := CanonicalIds(sender.scope, resolve, requested);
    forall id | id in ids
      ensures id in sender.scope
    {
      var i :| 0 <= i < |ids| && ids[i] == id;
      assert requested[i] in requested;
    }
    DedupDistinct(ids);
    ScopeKeysDeliverSafely(chats, multiBot, sn, sender, Dedup(ids));
  }

  lemma ScopeKeysDeliverSafely(chats: Chats, multiBot: bool, sn: SenderConfig, sender: Sender, keys: seq<string>)
    requires BuiltSender(chats, multiBot, sn, sender)
    requires Distinct(keys) && AllIn(keys, sender.scope)
    ensures SafeDelivery(chats, sender, TargetsAt(sender.scope, keys))
  {
    var targets := TargetsAt(sender.scope, keys);
    forall i | 0 <= i < |keys|
      ensures DeliversInScope(chats, sender, targets[i]) && ResolveChatRef(chats, targets[i]).id == keys[i]
    {
      assert keys[i] in keys;
      ScopeEntryDelivers(chats, multiBot, sn, sender, keys[i]);
    }
  }

  // ---- letter case -----------------------------------------------------------------------------

  /** The two stand for chats whose ids are equal up to case. */
  ghost predicate SameUpToCase(chats: Chats, a: string, b: string) {
    var x, y := ResolveChatRef(chats, a), ResolveChatRef(chats, b);
    x.Resolved? && y.Resolved? && Fold(x.id) == Fold(y.id)
  }

  /** No two of the targets are one chat in different spelling. */
  ghost predicate DistinctUpToCase(chats: Chats, targets: seq<string>) {
    forall i, j :: 0 <= i < j < |targets| ==> !SameUpToCase(chats, targets[i], targets[j])
  }

  ghost predicate KeysDistinctUpToCase(scope: map<string, Target>) {
    forall a, b :: a in scope && b in scope && Fold(a) == Fold(b) ==> a == b
  }

  /** Whether one chat may be delivered to twice in different spelling is decided by the scope: no list can
      do that when the keys are distinct up to case, and otherwise the list of all targets does. */
  lemma DistinctUpToCaseExactly(chats: Chats, multiBot: bool, sn: SenderConfig, sender: Sender)
    requires BuiltSender(chats, multiBot, sn, sender)
    ensures DistinctUpToCase(chats, sender.targets) <==> KeysDistinctUpToCase(sender.scope)
    ensures KeysDistinctUpToCase(sender.scope) <==>
            forall targets :: SafeDelivery(chats, sender, targets) ==> DistinctUpToCase(chats, targets)
  {
    DefaultDeliveryIsSafe(chats, multiBot, sn, sender);
    if KeysDistinctUpToCase(sender.scope) {
      forall targets | SafeDelivery(chats, sender, targets)
        ensures DistinctUpToCase(chats, targets)
      {
        SafeIsDistinctUpToCase(chats, sender, targets);
      }
    }
    if DistinctUpToCase(chats, sender.targets) {
      forall a, b | a in sender.scope && b in sender.scope && Fold(a) == Fold(b)
        ensures a == b
      {
        ScopeEntryDelivers(chats, multiBot, sn, sender, a);
        ScopeEntryDelivers(chats, multiBot, sn, sender, b);
        SameFoldSameTarget(chats, sender.targets, sender.scope[a].target, sender.scope[b].target);
      }
    }
  }

  lemma SafeIsDistinctUpToCase(chats: Chats, sender: Sender, targets: seq<string>)
    requires SafeDelivery(chats, sender, targets) && KeysDistinctUpToCase(sender.scope)
    ensures DistinctUpToCase(chats, targets)
  {
    forall i, j | 0 <= i < j < |targets|
      ensures !SameUpToCase(chats, targets[i], targets[j])
    {
      assert targets[i] in targets && targets[j] in targets;
      assert !SameChatRefs(chats, targets[i], targets[j]);
    }
  }

  lemma SameFoldSameTarget(chats: Chats, targets: seq<string>, s: string, t: string)
    requires DistinctUpToCase(chats, targets) && s in targets && t in targets && SameUpToCase(chats, s, t)
    ensures s == t
  {
    var i :| 0 <= i < |targets| && targets[i] == s;
    var j :| 0 <= j < |targets| && targets[j] == t;
    assert !(i < j) && !(j < i);
  }

  /** Two spellings of one chat id are accepted as two targets, and both are delivered to. */
  lemma SpellingsAreTwoTargets(chats: Chats, a: string, b: string, sender: Sender)
    requires IsUUID(a) && IsUUID(b) && a != b && Fold(a) == Fold(b)
    requires IsSenderFor(chats, SenderConfig([a, b], []), sender)
    ensures Acceptable(chats, false, SenderConfig([a, b], []))
    ensures sender.targets == [a, b] && !DistinctUpToCase(chats, sender.targets)
  {
    var sn := SenderConfig([a, b], []);
    assert GoodTargets(chats, false, TargetRefs(sn));
    DedupOfDistinct([a, b]);
    assert SameUpToCase(chats, [a, b][0], [a, b][1]);
  }
}
