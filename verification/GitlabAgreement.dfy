/** The offline validator and the startup builder follow one set of rules: where the validator
    can decide everything they agree, and where it cannot its errors are still right. */
module GitlabAgreement {
  import opened ChatRefs
  import opened GitlabSender
  import opened GitlabValidation
  import opened Wrappers

  predicate NoErrors(findings: seq<Finding>) {
    forall f :: f in findings ==> !f.IsError()
  }

  /** No id in the chats section is empty, a secret reference or malformed. */
  predicate AllIdsAreUUIDs(chats: Chats) {
    forall a :: a in chats ==> IsUUID(chats[a].id)
  }

  /** Both sides read the same ids, so both keep the same scope. */
  lemma {:induction false} ScopesAgree(chats: Chats, refs: seq<string>)
    requires AllIdsAreUUIDs(chats)
    ensures DecidedScope(chats, refs) == BuiltScope(chats, refs)
  {
    ScopesEqual(r => DecidedKey(chats, r), r => TargetKey(chats, r), refs);
  }

  lemma {:induction false} ScopesEqual(key: string -> Option<Key>, other: string -> Option<Key>, refs: seq<string>)
    requires forall r :: key(r) == other(r)
    ensures Scope(key, refs) == Scope(other, refs)
  {
    if refs != [] { ScopesEqual(key, other, refs[..|refs| - 1]); }
  }

  /** Errors are found where any is listed. */
  lemma TargetErrorsAreErrors(chats: Chats, before: seq<string>, item: Item)
    ensures NoErrors(TargetErrors(chats, before, item)) <==> TargetErrors(chats, before, item) == []
  {
    var errors := TargetErrors(chats, before, item);
    if errors != [] { assert errors[0] in errors && errors[0].IsError(); }
  }

  lemma RouteErrorsAreErrors(chats: Chats, targets: seq<string>, item: Item)
    ensures NoErrors(RouteErrors(chats, targets, item)) <==> RouteErrors(chats, targets, item) == []
  {
    var errors := RouteErrors(chats, targets, item);
    if errors != [] { assert errors[0] in errors && errors[0].IsError(); }
  }

  lemma TargetErrorsAgree(chats: Chats, before: seq<string>, item: Item)
    requires AllIdsAreUUIDs(chats)
    ensures NoErrors(TargetErrors(chats, before, item)) <==> TargetErrors(chats, before, item) == []
    ensures TargetErrors(chats, before, item) == [] <==> TargetFault(chats, false, before, item.ref).None?
  {
    ScopesAgree(chats, before);
    TargetErrorsAreErrors(chats, before, item);
  }

  lemma RouteErrorsAgree(chats: Chats, targets: seq<string>, item: Item)
    requires AllIdsAreUUIDs(chats) && AllDecided(chats, targets)
    ensures NoErrors(RouteErrors(chats, targets, item)) <==> RouteErrors(chats, targets, item) == []
    ensures RouteErrors(chats, targets, item) == [] <==> RouteFault(chats, targets, item.ref).None?
  {
    ScopesAgree(chats, targets);
    RouteErrorsAreErrors(chats, targets, item);
  }

  lemma NoErrorsConcat(a: seq<Finding>, b: seq<Finding>)
    ensures NoErrors(a + b) <==> NoErrors(a) && NoErrors(b)
  {
    assert forall f :: f in a + b <==> f in a || f in b;
  }

  lemma WarningsAreNoErrors(chats: Chats, multiBotPossible: bool, before: seq<string>, item: Item)
    ensures NoErrors(Warnings(chats, multiBotPossible, before, item))
  {}

  lemma {:induction false} TargetFindingsAgree(chats: Chats, multiBotPossible: bool, items: seq<Item>)
    requires AllIdsAreUUIDs(chats)
    ensures NoErrors(TargetFindings(chats, multiBotPossible, items)) <==> NoTargetFault(chats, false, Refs(items))
  {
    if items != [] {
      var n := |items| - 1;
      var before := Refs(items[..n]);
      assert items == items[..n] + [items[n]];
      RefsAppend(items[..n], items[n]);
      TargetFindingsAgree(chats, multiBotPossible, items[..n]);
      NoTargetFaultAppend(chats, false, before, items[n].ref);
      TargetErrorsAgree(chats, before, items[n]);
      WarningsAreNoErrors(chats, multiBotPossible, before, items[n]);
      var earlier, warned := TargetFindings(chats, multiBotPossible, items[..n]),
        Warnings(chats, multiBotPossible, before, items[n]);
      NoErrorsConcat(earlier, warned);
      NoErrorsConcat(earlier + warned, TargetErrors(chats, before, items[n]));
    }
  }

  /** Nothing to warn of at any place means nothing to warn of at all, although each reference is
      looked at only where it first stands. */
  lemma {:induction false} TargetFindingsAgreeMultiBot(chats: Chats, items: seq<Item>)
    requires AllIdsAreUUIDs(chats)
    ensures TargetFindings(chats, true, items) == [] <==> NoTargetFault(chats, true, Refs(items))
  {
    if items != [] {
      var n := |items| - 1;
      var before, item := Refs(items[..n]), items[n];
      assert items == items[..n] + [item];
      RefsAppend(items[..n], item);
      TargetFindingsAgreeMultiBot(chats, items[..n]);
      NoTargetFaultAppend(chats, true, before, item.ref);
      TargetErrorsAgree(chats, before, item);
      if NoTargetFault(chats, true, before) && item.ref in before {
        NoTargetFaultMeaning(chats, true, before);
      }
    }
  }

  lemma {:induction false} RouteFindingsAgree(chats: Chats, targets: seq<string>, items: seq<Item>)
    requires AllIdsAreUUIDs(chats) && AllDecided(chats, targets)
    ensures NoErrors(RouteFindings(chats, targets, items)) <==> RouteFindings(chats, targets, items) == []
    ensures RouteFindings(chats, targets, items) == [] <==> NoRouteFault(chats, targets, Refs(items))
  {
    if items != [] {
      var n := |items| - 1;
      assert items == items[..n] + [items[n]];
      RefsAppend(items[..n], items[n]);
      RouteFindingsAgree(chats, targets, items[..n]);
      RouteErrorsAgree(chats, targets, items[n]);
      NoErrorsConcat(RouteFindings(chats, targets, items[..n]), RouteErrors(chats, targets, items[n]));
      NoRouteFaultAppend(chats, targets, Refs(items[..n]), items[n].ref);
    }
  }

  lemma NoRouteFaultAppend(chats: Chats, targets: seq<string>, refs: seq<string>, ref: string)
    ensures NoRouteFault(chats, targets, refs + [ref]) <==>
            NoRouteFault(chats, targets, refs) && RouteFault(chats, targets, ref).None?
  {
    var all := refs + [ref];
    assert all[|refs|] == ref && forall k :: 0 <= k < |refs| ==> all[k] == refs[k];
  }

  lemma NoRouteFaultConcat(chats: Chats, targets: seq<string>, a: seq<string>, b: seq<string>)
    ensures NoRouteFault(chats, targets, a + b) <==> NoRouteFault(chats, targets, a) && NoRouteFault(chats, targets, b)
  {
    assert forall k :: 0 <= k < |a| ==> (a + b)[k] == a[k];
    assert forall k :: 0 <= k < |b| ==> (a + b)[|a| + k] == b[k];
  }

  lemma {:induction false} RouteItemsRefs(routes: seq<seq<string>>)
    ensures Refs(RouteItems(routes)) == Concat(routes)
  {
    if routes != [] {
      var n := |routes| - 1;
      RouteItemsRefs(routes[..n]);
      assert Refs(ItemsAt(routes[n], RoutePath(n))) == routes[n];
    }
  }

  lemma {:induction false} NoRouteFaultAnywhere(chats: Chats, targets: seq<string>, routes: seq<seq<string>>)
    ensures NoRouteFault(chats, targets, Concat(routes)) <==>
            forall i :: 0 <= i < |routes| ==> NoRouteFault(chats, targets, routes[i])
  {
    if routes != [] {
      var n := |routes| - 1;
      NoRouteFaultAnywhere(chats, targets, routes[..n]);
      NoRouteFaultConcat(chats, targets, Concat(routes[..n]), routes[n]);
      assert forall i :: 0 <= i < n ==> routes[..n][i] == routes[i];
    }
  }

  lemma GoodTargetsAreDecided(chats: Chats, multiBot: bool, refs: seq<string>)
    requires AllIdsAreUUIDs(chats) && NoTargetFault(chats, multiBot, refs)
    ensures AllDecided(chats, refs)
  {
    NoTargetFaultMeaning(chats, multiBot, refs);
  }

  /** Single-bot mode: the validator reports no error exactly when the builder accepts. */
  lemma ValidatorAgreesWithBuilder(chats: Chats, multiBotPossible: bool, sn: SenderConfig)
    requires AllIdsAreUUIDs(chats)
    ensures NoErrors(Findings(chats, multiBotPossible, sn)) <==> Acceptable(chats, false, sn)
  {
    NoFaultMeaning(chats, false, sn);
    RouteItemsRefs(sn.routes);
    if sn.chats == [] {
      TargetFindingsAgree(chats, multiBotPossible, RouteItems(sn.routes));
    } else {
      var items := ChatItems(sn.chats);
      assert Refs(items) == sn.chats;
      TargetFindingsAgree(chats, multiBotPossible, items);
      NoErrorsConcat(TargetFindings(chats, multiBotPossible, items),
                     RouteFindings(chats, sn.chats, RouteItems(sn.routes)));
      if NoTargetFault(chats, false, sn.chats) {
        GoodTargetsAreDecided(chats, false, sn.chats);
        RouteFindingsAgree(chats, sn.chats, RouteItems(sn.routes));
        NoRouteFaultAnywhere(chats, sn.chats, sn.routes);
      }
    }
  }

  /** Multi-bot mode: the validator reports neither error nor warning exactly when the builder
      accepts. */
  lemma ValidatorAgreesWithBuilderMultiBot(chats: Chats, sn: SenderConfig)
    requires AllIdsAreUUIDs(chats)
    ensures Findings(chats, true, sn) == [] <==> Acceptable(chats, true, sn)
  {
    NoFaultMeaning(chats, true, sn);
    RouteItemsRefs(sn.routes);
    if sn.chats == [] {
      TargetFindingsAgreeMultiBot(chats, RouteItems(sn.routes));
    } else {
      assert Refs(ChatItems(sn.chats)) == sn.chats;
      TargetFindingsAgreeMultiBot(chats, ChatItems(sn.chats));
      if NoTargetFault(chats, true, sn.chats) {
        GoodTargetsAreDecided(chats, true, sn.chats);
        RouteFindingsAgree(chats, sn.chats, RouteItems(sn.routes));
        NoRouteFaultAnywhere(chats, sn.chats, sn.routes);
      }
    }
  }

  // ---- undecidable ids -----------------------------------------------------------------------

  /** What serve may see after resolving secrets: ids that are UUIDs stay, empty ids stay empty,
      anything else may become anything. */
  ghost predicate IsResolution(chats: Chats, resolved: Chats) {
    && resolved.Keys == chats.Keys
    && forall a :: a in chats ==>
         && resolved[a].bot == chats[a].bot
         && (IsUUID(chats[a].id) || chats[a].id == "" ==> resolved[a].id == chats[a].id)
  }

  lemma DecidedStays(chats: Chats, resolved: Chats, ref: string)
    requires IsResolution(chats, resolved) && Classify(chats, ref).Decided?
    ensures ResolveChatRef(resolved, ref) == Resolved(Classify(chats, ref).id, Classify(chats, ref).bot)
  {
    if !IsUUID(ref) {
      assert !IsUUID("");
    }
  }

  lemma TargetErrorIsRight(chats: Chats, resolved: Chats, multiBot: bool, before: seq<string>, item: Item,
                           refs: seq<string>)
    requires IsResolution(chats, resolved) && TargetErrors(chats, before, item) != []
    requires item.ref in refs && forall r :: r in before ==> r in refs
    ensures !GoodTargets(resolved, multiBot, refs)
  {
    match Classify(chats, item.ref) {
      case Unknown =>
        assert !GoodTarget(resolved, multiBot, item.ref);
      case Decided(id, _) =>
        ScopeMeaning(r => DecidedKey(chats, r), before, id);
        var previous := DecidedScope(chats, before)[id].target;
        assert previous in before && Classify(chats, previous).Decided? && Classify(chats, previous).id == id;
        DecidedStays(chats, resolved, previous);
        DecidedStays(chats, resolved, item.ref);
        assert SameChatRefs(resolved, previous, item.ref);
      case _ =>
    }
  }

  lemma RouteErrorIsRight(chats: Chats, resolved: Chats, multiBot: bool, targets: seq<string>, item: Item)
    requires IsResolution(chats, resolved) && RouteErrors(chats, targets, item) != []
    requires GoodTargets(resolved, multiBot, targets)
    ensures !exists t :: t in targets && StandsFor(resolved, t, item.ref)
  {
    match Classify(chats, item.ref) {
      case Decided(id, _) =>
        DecidedStays(chats, resolved, item.ref);
        ScopeMeaning(r => DecidedKey(chats, r), targets, id);
        var scope := DecidedScope(chats, targets);
        if t :| t in targets && StandsFor(resolved, t, item.ref) {
          if id in scope {
            var entry := scope[id].target;
            assert entry in targets && Classify(chats, entry).Decided? && Classify(chats, entry).id == id;
            DecidedStays(chats, resolved, entry);
            assert SameChatRefs(resolved, entry, t);
          } else {
            DecidedStays(chats, resolved, t);
            assert DecidedKey(chats, t) == Some(Key(id, Target(t, Classify(chats, t).bot)));
          }
        }
      case _ =>
    }
  }

  lemma {:induction false} TargetFindingsAreRight(chats: Chats, resolved: Chats, multiBotPossible: bool, multiBot: bool,
                                                  items: seq<Item>, refs: seq<string>)
    requires IsResolution(chats, resolved) && !NoErrors(TargetFindings(chats, multiBotPossible, items))
    requires forall r :: r in Refs(items) ==> r in refs
    ensures !GoodTargets(resolved, multiBot, refs)
  {
    var n := |items| - 1;
    assert items == items[..n] + [items[n]];
    RefsAppend(items[..n], items[n]);
    var before := Refs(items[..n]);
    assert Refs(items)[n] == items[n].ref;
    assert forall r :: r in before ==> r in Refs(items);
    if !NoErrors(TargetFindings(chats, multiBotPossible, items[..n])) {
      TargetFindingsAreRight(chats, resolved, multiBotPossible, multiBot, items[..n], refs);
    } else {
      WarningsAreNoErrors(chats, multiBotPossible, before, items[n]);
      TargetErrorIsRight(chats, resolved, multiBot, before, items[n], refs);
    }
  }

  lemma {:induction false} RouteFindingsAreRight(chats: Chats, resolved: Chats, multiBot: bool, targets: seq<string>,
                                                 items: seq<Item>) returns (bad: string)
    requires IsResolution(chats, resolved) && RouteFindings(chats, targets, items) != []
    requires GoodTargets(resolved, multiBot, targets)
    ensures bad in Refs(items) && !exists t :: t in targets && StandsFor(resolved, t, bad)
  {
    var n := |items| - 1;
    assert items == items[..n] + [items[n]];
    RefsAppend(items[..n], items[n]);
    if RouteFindings(chats, targets, items[..n]) != [] {
      bad := RouteFindingsAreRight(chats, resolved, multiBot, targets, items[..n]);
    } else {
      bad := items[n].ref;
      assert Refs(items)[n] == bad;
      RouteErrorIsRight(chats, resolved, multiBot, targets, items[n]);
    }
  }

  lemma {:induction false} ConcatMember(routes: seq<seq<string>>, ref: string) returns (i: nat)
    requires ref in Concat(routes)
    ensures i < |routes| && ref in routes[i]
  {
    var n := |routes| - 1;
    if ref in routes[n] { i := n; } else { i := ConcatMember(routes[..n], ref); }
  }

  /** Whatever the secrets turn out to be, a sender the validator reports an error for is one the
      builder rejects, in either mode. */
  lemma ErrorsAreSound(chats: Chats, resolved: Chats, multiBotPossible: bool, multiBot: bool, sn: SenderConfig)
    requires IsResolution(chats, resolved)
    requires !NoErrors(Findings(chats, multiBotPossible, sn))
    ensures !Acceptable(resolved, multiBot, sn)
  {
    RouteItemsRefs(sn.routes);
    if sn.chats == [] {
      TargetFindingsAreRight(chats, resolved, multiBotPossible, multiBot, RouteItems(sn.routes), TargetRefs(sn));
    } else {
      var items, routeItems := ChatItems(sn.chats), RouteItems(sn.routes);
      assert Refs(items) == sn.chats;
      NoErrorsConcat(TargetFindings(chats, multiBotPossible, items), RouteFindings(chats, sn.chats, routeItems));
      if !NoErrors(TargetFindings(chats, multiBotPossible, items)) {
        TargetFindingsAreRight(chats, resolved, multiBotPossible, multiBot, items, sn.chats);
      } else if GoodTargets(resolved, multiBot, sn.chats) {
        var bad := RouteFindingsAreRight(chats, resolved, multiBot, sn.chats, routeItems);
        var i := ConcatMember(sn.routes, bad);
      }
    }
  }
}
