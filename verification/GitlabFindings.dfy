/** What each fault of the startup builder and each finding of the offline validator means: which
    references it names, and when exactly it occurs. */
module GitlabFindings {
  import opened ChatRefs
  import opened GitlabSender
  import opened GitlabValidation
  import opened Wrappers

  // ---- the faults of the builder -------------------------------------------------------------------

  /** The reference resolves to this chat, bound to this bot. */
  predicate Means(chats: Chats, ref: string, id: string, bot: string) {
    ResolveChatRef(chats, ref) == Resolved(id, bot)
  }

  ghost predicate MeansId(chats: Chats, ref: string, id: string) {
    exists bot :: Means(chats, ref, id, bot)
  }

  /** `first` is the first of the references that stands for the chat `id`. */
  ghost predicate FirstFor(chats: Chats, refs: seq<string>, first: string, id: string) {
    exists j :: 0 <= j < |refs| && refs[j] == first && MeansId(chats, first, id)
                && forall i :: 0 <= i < j ==> !MeansId(chats, refs[i], id)
  }

  lemma BuiltScopeHasFirst(chats: Chats, refs: seq<string>, id: string)
    ensures var scope := BuiltScope(chats, refs);
            && (id in scope <==> exists r :: r in refs && MeansId(chats, r, id))
            && (id in scope ==> FirstFor(chats, refs, scope[id].target, id)
                                && Means(chats, scope[id].target, id, scope[id].bot))
  {
    var key := (r: string) => TargetKey(chats, r);
    ScopeMeaning(key, refs, id);
    assert forall r :: MeansId(chats, r, id) <==> key(r).Some? && key(r).value.id == id by {
      forall r
        ensures MeansId(chats, r, id) <==> key(r).Some? && key(r).value.id == id
      {
        if key(r).Some? && key(r).value.id == id { assert Means(chats, r, id, key(r).value.target.bot); }
      }
    }
  }

  lemma FirstIsUnique(chats: Chats, refs: seq<string>, a: string, b: string, id: string)
    requires FirstFor(chats, refs, a, id) && FirstFor(chats, refs, b, id)
    ensures a == b
  {
    var i :| 0 <= i < |refs| && refs[i] == a && MeansId(chats, a, id)
             && forall k :: 0 <= k < i ==> !MeansId(chats, refs[k], id);
    var j :| 0 <= j < |refs| && refs[j] == b && MeansId(chats, b, id)
             && forall k :: 0 <= k < j ==> !MeansId(chats, refs[k], id);
    assert !(i < j) && !(j < i);
  }

  /** Why a reference to no chat is rejected. */
  predicate Unresolvably(chats: Chats, ref: string, error: RefError) {
    && !IsUUID(ref)
    && match error
       case NoAliases => chats == map[]
       case UnknownAlias => chats != map[] && ref !in chats
       case NoId => ref in chats && chats[ref].id == ""
  }

  /** `fault` is true of `ref` as the next delivery target after `before`; the faults exclude each other. */
  ghost predicate TargetFaultHolds(chats: Chats, multiBot: bool, before: seq<string>, ref: string, fault: Fault) {
    match fault
    case Unresolvable(r, error) => r == ref && Unresolvably(chats, ref, error)
    case RawUuid(r) => r == ref && multiBot && IsUUID(ref)
    case Unbound(r) => r == ref && multiBot && !IsUUID(ref) && exists id :: Means(chats, ref, id, "")
    case SameChat(previous, r, id) =>
      && r == ref && (multiBot ==> !IsUUID(ref) && !Means(chats, ref, id, ""))
      && MeansId(chats, ref, id) && FirstFor(chats, before, previous, id) && previous != ref
    case _ => false
  }

  /** The fault reported for a delivery target is exactly the one that is true of it. */
  lemma TargetFaultExactly(chats: Chats, multiBot: bool, before: seq<string>, ref: string, fault: Fault)
    ensures TargetFault(chats, multiBot, before, ref) == Some(fault) <==>
            TargetFaultHolds(chats, multiBot, before, ref, fault)
  {
    var resolved := ResolveChatRef(chats, ref);
    if resolved.Resolved? {
      assert Means(chats, ref, resolved.id, resolved.bot);
      BuiltScopeHasFirst(chats, before, resolved.id);
      if fault.SameChat? && FirstFor(chats, before, fault.previous, resolved.id) {
        var scope := BuiltScope(chats, before);
        assert fault.previous in before && MeansId(chats, fault.previous, resolved.id);
        FirstIsUnique(chats, before, fault.previous, scope[resolved.id].target, resolved.id);
      }
    }
  }

  /** `fault` is true of `ref` as a chat of a route; the faults exclude each other. */
  ghost predicate RouteFaultHolds(chats: Chats, targets: seq<string>, ref: string, fault: Fault) {
    match fault
    case Unresolvable(r, error) => r == ref && Unresolvably(chats, ref, error)
    case OutsideScope(r) =>
      r == ref && exists id :: MeansId(chats, ref, id) && forall t :: t in targets ==> !MeansId(chats, t, id)
    case BotClash(r, bot, target) =>
      && r == ref && ref != target.target && bot != "" && target.bot != "" && bot != target.bot
      && exists id :: Means(chats, ref, id, bot) && Means(chats, target.target, id, target.bot)
                      && FirstFor(chats, targets, target.target, id)
    case _ => false
  }

  /** The fault reported for a route chat is exactly the one that is true of it. */
  lemma RouteFaultExactly(chats: Chats, targets: seq<string>, ref: string, fault: Fault)
    ensures RouteFault(chats, targets, ref) == Some(fault) <==> RouteFaultHolds(chats, targets, ref, fault)
  {
    var resolved := ResolveChatRef(chats, ref);
    if resolved.Resolved? {
      assert Means(chats, ref, resolved.id, resolved.bot) && MeansId(chats, ref, resolved.id);
      BuiltScopeHasFirst(chats, targets, resolved.id);
      if fault.BotClash? && FirstFor(chats, targets, fault.target.target, resolved.id) {
        var scope := BuiltScope(chats, targets);
        assert fault.target.target in targets && MeansId(chats, fault.target.target, resolved.id);
        FirstIsUnique(chats, targets, fault.target.target, scope[resolved.id].target, resolved.id);
      }
    }
  }

  // ---- the findings of the validator ---------------------------------------------------------------

  /** What can be read of a reference without secrets: a UUID is itself, an alias has its id when that is one. */
  predicate Reads(chats: Chats, ref: string, id: string, bot: string) {
    if IsUUID(ref) then id == ref && bot == ""
    else ref in chats && chats[ref].id == id && chats[ref].bot == bot && IsUUID(id)
  }

  ghost predicate ReadsId(chats: Chats, ref: string, id: string) {
    exists bot :: Reads(chats, ref, id, bot)
  }

  ghost predicate FirstRead(chats: Chats, refs: seq<string>, first: string, id: string) {
    exists j :: 0 <= j < |refs| && refs[j] == first && ReadsId(chats, first, id)
                && forall i :: 0 <= i < j ==> !ReadsId(chats, refs[i], id)
  }

  lemma DecidedIsRead(chats: Chats, ref: string, id: string, bot: string)
    ensures Classify(chats, ref) == Decided(id, bot) <==> Reads(chats, ref, id, bot)
  {}

  lemma DecidedScopeHasFirst(chats: Chats, refs: seq<string>, id: string)
    ensures var scope := DecidedScope(chats, refs);
            && (id in scope <==> exists r :: r in refs && ReadsId(chats, r, id))
            && (id in scope ==> FirstRead(chats, refs, scope[id].target, id)
                                && Reads(chats, scope[id].target, id, scope[id].bot))
  {
    var key := (r: string) => DecidedKey(chats, r);
    ScopeMeaning(key, refs, id);
    assert forall r :: ReadsId(chats, r, id) <==> key(r).Some? && key(r).value.id == id by {
      forall r
        ensures ReadsId(chats, r, id) <==> key(r).Some? && key(r).value.id == id
      {
        if key(r).Some? && key(r).value.id == id { DecidedIsRead(chats, r, id, key(r).value.target.bot); }
        if bot :| Reads(chats, r, id, bot) { DecidedIsRead(chats, r, id, bot); }
      }
    }
    if id in DecidedScope(chats, refs) {
      var entry := DecidedScope(chats, refs)[id];
      DecidedIsRead(chats, entry.target, id, entry.bot);
    }
  }

  lemma FirstReadIsUnique(chats: Chats, refs: seq<string>, a: string, b: string, id: string)
    requires FirstRead(chats, refs, a, id) && FirstRead(chats, refs, b, id)
    ensures a == b
  {
    var i :| 0 <= i < |refs| && refs[i] == a && ReadsId(chats, a, id)
             && forall k :: 0 <= k < i ==> !ReadsId(chats, refs[k], id);
    var j :| 0 <= j < |refs| && refs[j] == b && ReadsId(chats, b, id)
             && forall k :: 0 <= k < j ==> !ReadsId(chats, refs[k], id);
    assert !(i < j) && !(j < i);
  }

  /** `f` is true of the item as the next delivery target after `before`; the errors exclude each other. */
  ghost predicate TargetErrorHolds(chats: Chats, before: seq<string>, item: Item, f: Finding) {
    match f
    case UnknownAliasAt(path, ref) => path == item.path && ref == item.ref && !IsUUID(ref) && ref !in chats
    case SameChatAt(path, previous, ref, id) =>
      && path == item.path && ref == item.ref && previous != ref
      && ReadsId(chats, ref, id) && FirstRead(chats, before, previous, id)
    case _ => false
  }

  /** The errors of a delivery target are exactly those that are true of it, at most one. */
  lemma TargetErrorsExactly(chats: Chats, before: seq<string>, item: Item, f: Finding)
    ensures |TargetErrors(chats, before, item)| <= 1
    ensures f in TargetErrors(chats, before, item) <==> TargetErrorHolds(chats, before, item, f)
  {
    var kind := Classify(chats, item.ref);
    if kind.Decided? {
      DecidedIsRead(chats, item.ref, kind.id, kind.bot);
      DecidedScopeHasFirst(chats, before, kind.id);
      if f.SameChatAt? && FirstRead(chats, before, f.previous, kind.id) {
        assert f.previous in before && ReadsId(chats, f.previous, kind.id);
        FirstReadIsUnique(chats, before, f.previous, DecidedScope(chats, before)[kind.id].target, kind.id);
      }
    } else {
      NothingRead(chats, item.ref);
    }
  }

  lemma NothingRead(chats: Chats, ref: string)
    requires !Classify(chats, ref).Decided?
    ensures forall id :: !ReadsId(chats, ref, id)
    ensures forall id, bot :: !Reads(chats, ref, id, bot)
  {
    forall id, bot
      ensures !Reads(chats, ref, id, bot)
    {
      DecidedIsRead(chats, ref, id, bot);
    }
  }

  /** `f` is true of the item as a route chat of a sender with explicit targets. */
  ghost predicate RouteErrorHolds(chats: Chats, targets: seq<string>, item: Item, f: Finding) {
    match f
    case UnknownAliasAt(path, ref) => path == item.path && ref == item.ref && !IsUUID(ref) && ref !in chats
    case OutsideScopeAt(path, ref) =>
      && path == item.path && ref == item.ref && AllRead(chats, targets)
      && exists id :: ReadsId(chats, ref, id) && forall t :: t in targets ==> !ReadsId(chats, t, id)
    case BotClashAt(path, ref, bot, target) =>
      && path == item.path && ref == item.ref
      && ref != target.target && bot != "" && target.bot != "" && bot != target.bot
      && exists id :: Reads(chats, ref, id, bot) && Reads(chats, target.target, id, target.bot)
                      && FirstRead(chats, targets, target.target, id)
    case _ => false
  }

  ghost predicate AllRead(chats: Chats, refs: seq<string>) {
    forall r :: r in refs ==> exists id :: ReadsId(chats, r, id)
  }

  lemma AllDecidedIsAllRead(chats: Chats, refs: seq<string>)
    ensures AllDecided(chats, refs) <==> AllRead(chats, refs)
  {
    forall r | r in refs
      ensures Classify(chats, r).Decided? <==> exists id :: ReadsId(chats, r, id)
    {
      var kind := Classify(chats, r);
      if kind.Decided? {
        DecidedIsRead(chats, r, kind.id, kind.bot);
        assert ReadsId(chats, r, kind.id);
      } else {
        NothingRead(chats, r);
      }
    }
  }

  /** The errors of a route chat are exactly those that are true of it, at most one. */
  lemma RouteErrorsExactly(chats: Chats, targets: seq<string>, item: Item, f: Finding)
    ensures |RouteErrors(chats, targets, item)| <= 1
    ensures f in RouteErrors(chats, targets, item) <==> RouteErrorHolds(chats, targets, item, f)
  {
    AllDecidedIsAllRead(chats, targets);
    var kind := Classify(chats, item.ref);
    if kind.Decided? {
      DecidedIsRead(chats, item.ref, kind.id, kind.bot);
      assert ReadsId(chats, item.ref, kind.id);
      DecidedScopeHasFirst(chats, targets, kind.id);
      if f.BotClashAt? && FirstRead(chats, targets, f.target.target, kind.id) {
        assert f.target.target in targets && ReadsId(chats, f.target.target, kind.id);
        FirstReadIsUnique(chats, targets, f.target.target, DecidedScope(chats, targets)[kind.id].target, kind.id);
      }
    } else {
      NothingRead(chats, item.ref);
    }
  }

  /** A target is warned of where it stands first: as a raw UUID, or as an alias without a bot. */
  lemma WarningsExactly(chats: Chats, multiBotPossible: bool, before: seq<string>, item: Item, f: Finding)
    ensures |Warnings(chats, multiBotPossible, before, item)| <= 1
    ensures f in Warnings(chats, multiBotPossible, before, item) <==>
            && multiBotPossible && item.ref !in before
            && if IsUUID(item.ref) then f == RawUuidWarning(item.path, item.ref)
               else f == UnboundWarning(item.path, item.ref) && item.ref in chats && chats[item.ref].bot == ""
  {}

  // ---- the whole list ------------------------------------------------------------------------------

  /** Every finding about delivery targets is about one of them, after those in front of it. */
  lemma {:induction false} TargetFindingsMembers(chats: Chats, multiBotPossible: bool, items: seq<Item>, f: Finding)
    ensures f in TargetFindings(chats, multiBotPossible, items) <==>
            exists k :: 0 <= k < |items| && FoundAt(chats, multiBotPossible, items, k, f)
  {
    if items != [] {
      var n := |items| - 1;
      TargetFindingsMembers(chats, multiBotPossible, items[..n], f);
      LastTargetFindings(chats, multiBotPossible, items, f);
      forall k | 0 <= k < n
        ensures FoundAt(chats, multiBotPossible, items[..n], k, f) <==> FoundAt(chats, multiBotPossible, items, k, f)
      {
        FoundEarlier(chats, multiBotPossible, items, n, k, f);
      }
    }
  }

  lemma FoundEarlier(chats: Chats, multiBotPossible: bool, items: seq<Item>, n: nat, k: nat, f: Finding)
    requires k < n <= |items|
    ensures FoundAt(chats, multiBotPossible, items[..n], k, f) <==> FoundAt(chats, multiBotPossible, items, k, f)
  {
    assert items[..n][..k] == items[..k];
  }

  lemma LastTargetFindings(chats: Chats, multiBotPossible: bool, items: seq<Item>, f: Finding)
    requires items != []
    ensures var n := |items| - 1;
            f in TargetFindings(chats, multiBotPossible, items) <==>
            f in TargetFindings(chats, multiBotPossible, items[..n]) || FoundAt(chats, multiBotPossible, items, n, f)
  {}

  ghost predicate FoundAt(chats: Chats, multiBotPossible: bool, items: seq<Item>, k: nat, f: Finding)
    requires k < |items|
  {
    || f in Warnings(chats, multiBotPossible, Refs(items[..k]), items[k])
    || f in TargetErrors(chats, Refs(items[..k]), items[k])
  }

  /** Every finding about route chats is about one of them. */
  lemma {:induction false} RouteFindingsMembers(chats: Chats, targets: seq<string>, items: seq<Item>, f: Finding)
    ensures f in RouteFindings(chats, targets, items) <==>
            exists k :: 0 <= k < |items| && f in RouteErrors(chats, targets, items[k])
  {
    if items != [] {
      var n := |items| - 1;
      RouteFindingsMembers(chats, targets, items[..n], f);
      LastRouteFindings(chats, targets, items, f);
      assert forall k :: 0 <= k < n ==> items[..n][k] == items[k];
    }
  }

  lemma LastRouteFindings(chats: Chats, targets: seq<string>, items: seq<Item>, f: Finding)
    requires items != []
    ensures var n := |items| - 1;
            f in RouteFindings(chats, targets, items) <==>
            f in RouteFindings(chats, targets, items[..n]) || f in RouteErrors(chats, targets, items[n])
  {}

  /** Every chat of every route is looked at, under the path of its route. */
  lemma {:induction false} RouteItemsExactly(routes: seq<seq<string>>, item: Item)
    ensures item in RouteItems(routes) <==>
            item.path.RoutePath? && item.path.route < |routes| && item.ref in routes[item.path.route]
  {
    if routes != [] {
      var n := |routes| - 1;
      RouteItemsExactly(routes[..n], item);
      ItemsAtExactly(routes[n], RoutePath(n), item);
    }
  }

  lemma ItemsAtExactly(refs: seq<string>, path: Path, item: Item)
    ensures item in ItemsAt(refs, path) <==> item.path == path && item.ref in refs
  {
    if item.path == path && item.ref in refs {
      var k :| 0 <= k < |refs| && refs[k] == item.ref;
      assert ItemsAt(refs, path)[k] == item;
    }
  }
}
