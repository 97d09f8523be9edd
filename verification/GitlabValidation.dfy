/** The GitLab part of validateCrossReferences (internal/config/config.go): the delivery-target
    rules of serve startup, checked offline, where an alias id may be a secret reference. */
module GitlabValidation {
  import opened ChatRefs
  import opened GitlabSender
  import opened Wrappers

  datatype Path = ChatPath(index: nat) | RoutePath(route: nat)

  datatype Finding =
    | UnknownAliasAt(path: Path, ref: string)
    | SameChatAt(path: Path, previous: string, ref: string, id: string)
    | OutsideScopeAt(path: Path, ref: string)
    | BotClashAt(path: Path, ref: string, bot: string, target: Target)
    | RawUuidWarning(path: Path, ref: string)
    | UnboundWarning(path: Path, ref: string)
  {
    predicate IsError() {
      !RawUuidWarning? && !UnboundWarning?
    }
  }

  /** What can be said of a reference without resolving secrets. A `Missing` alias has no id at
      all, which another check reports. */
  datatype Class = Unknown | Missing | Undecidable | Decided(id: string, bot: string)

  function Classify(chats: Chats, ref: string): Class {
    if IsUUID(ref) then Decided(ref, "")
    else if ref !in chats then Unknown
    else if chats[ref].id == "" then Missing
    else if !IsUUID(chats[ref].id) then Undecidable
    else Decided(chats[ref].id, chats[ref].bot)
  }

  function DecidedKey(chats: Chats, ref: string): Option<Key> {
    match Classify(chats, ref)
    case Decided(id, bot) => Some(Key(id, Target(ref, bot)))
    case _ => None
  }

  function DecidedScope(chats: Chats, refs: seq<string>): map<string, Target> {
    Scope(r => DecidedKey(chats, r), refs)
  }

  predicate AllDecided(chats: Chats, refs: seq<string>) {
    forall r :: r in refs ==> Classify(chats, r).Decided?
  }

  /** The reference in the configuration, with the place it is reported at. */
  datatype Item = Item(ref: string, path: Path)

  function Refs(items: seq<Item>): seq<string> {
    seq(|items|, i requires 0 <= i < |items| => items[i].ref)
  }

  function Warnings(chats: Chats, multiBotPossible: bool, before: seq<string>, item: Item): seq<Finding> {
    if !multiBotPossible || item.ref in before then []
    else if IsUUID(item.ref) then [RawUuidWarning(item.path, item.ref)]
    else if item.ref in chats && chats[item.ref].bot == "" then [UnboundWarning(item.path, item.ref)]
    else []
  }

  function TargetErrors(chats: Chats, before: seq<string>, item: Item): seq<Finding> {
    match Classify(chats, item.ref)
    case Unknown => [UnknownAliasAt(item.path, item.ref)]
    case Decided(id, _) =>
      var scope := DecidedScope(chats, before);
      if id in scope && scope[id].target != item.ref then
        [SameChatAt(item.path, scope[id].target, item.ref, id)]
      else []
    case _ => []
  }

  function RouteErrors(chats: Chats, targets: seq<string>, item: Item): seq<Finding> {
    match Classify(chats, item.ref)
    case Unknown => [UnknownAliasAt(item.path, item.ref)]
    case Decided(id, bot) =>
      var scope := DecidedScope(chats, targets);
      if id !in scope then
        if AllDecided(chats, targets) then [OutsideScopeAt(item.path, item.ref)] else []
      else if scope[id].BotConflict(item.ref, bot) then [BotClashAt(item.path, item.ref, bot, scope[id])]
      else []
    case _ => []
  }

  /** Everything reported for a list of delivery targets. */
  function TargetFindings(chats: Chats, multiBotPossible: bool, items: seq<Item>): seq<Finding> {
    if items == [] then [] else
      var n := |items| - 1;
      var before := Refs(items[..n]);
      TargetFindings(chats, multiBotPossible, items[..n])
      + Warnings(chats, multiBotPossible, before, items[n]) + TargetErrors(chats, before, items[n])
  }

  function RouteFindings(chats: Chats, targets: seq<string>, items: seq<Item>): seq<Finding> {
    if items == [] then [] else
      var n := |items| - 1;
      RouteFindings(chats, targets, items[..n]) + RouteErrors(chats, targets, items[n])
  }

  function ItemsAt(refs: seq<string>, path: Path): seq<Item> {
    seq(|refs|, i requires 0 <= i < |refs| => Item(refs[i], path))
  }

  function ChatItems(chats: seq<string>): seq<Item> {
    seq(|chats|, i requires 0 <= i < |chats| => Item(chats[i], ChatPath(i)))
  }

  function RouteItems(routes: seq<seq<string>>): seq<Item> {
    if routes == [] then [] else
      var n := |routes| - 1;
      RouteItems(routes[..n]) + ItemsAt(routes[n], RoutePath(n))
  }

  function Findings(chats: Chats, multiBotPossible: bool, sn: SenderConfig): seq<Finding> {
    if sn.chats == [] then TargetFindings(chats, multiBotPossible, RouteItems(sn.routes))
    else TargetFindings(chats, multiBotPossible, ChatItems(sn.chats))
         + RouteFindings(chats, sn.chats, RouteItems(sn.routes))
  }

  /** The variables the checks of one sender share. */
  class SenderCheck {
    const chats: Chats
    const multiBotPossible: bool
    var results: seq<Finding>
    var scope: map<string, Target>
    var scopeComplete: bool
    var warnedMultiBot: set<string>

    constructor (chats: Chats, multiBotPossible: bool)
      ensures this.chats == chats && this.multiBotPossible == multiBotPossible
      ensures Recorded([]) && results == []
    {
      this.chats, this.multiBotPossible := chats, multiBotPossible;
      results, scope, scopeComplete, warnedMultiBot := [], map[], true, {};
    }

    /** The shared variables are those of the delivery targets `items`. */
    ghost predicate Recorded(items: seq<Item>)
      reads this
    {
      && scope == DecidedScope(chats, Refs(items))
      && scopeComplete == AllDecided(chats, Refs(items))
      && warnedMultiBot == set r | r in Refs(items)
    }

    method WarnMultiBotOnce(item: Item, ghost items: seq<Item>)
      requires Recorded(items)
      modifies this`results, this`warnedMultiBot
      ensures results == old(results) + Warnings(chats, multiBotPossible, Refs(items), item)
      ensures warnedMultiBot == old(warnedMultiBot) + {item.ref}
    {
      if item.ref in warnedMultiBot {
        return;
      }
      warnedMultiBot := warnedMultiBot + {item.ref};
      if !multiBotPossible {
        return;
      }
      if IsUUID(item.ref) {
        results := results + [RawUuidWarning(item.path, item.ref)];
        return;
      }
      if item.ref in chats && chats[item.ref].bot == "" {
        results := results + [UnboundWarning(item.path, item.ref)];
      }
    }

    method AddTarget(item: Item, ghost items: seq<Item>)
      requires Recorded(items)
      modifies this
      ensures Recorded(items + [item])
      ensures results == old(results) + Warnings(chats, multiBotPossible, Refs(items), item)
                         + TargetErrors(chats, Refs(items), item)
    {
      RefsAppend(items, item);
      ScopeAppend(r => DecidedKey(chats, r), Refs(items), item.ref);
      WarnMultiBotOnce(item, items);
      assert forall r :: r in Refs(items + [item]) <==> r in Refs(items) || r == item.ref;
      assert item.ref in Refs(items + [item]);
      match Classify(chats, item.ref) {
        case Unknown =>
          results := results + [UnknownAliasAt(item.path, item.ref)];
          scopeComplete := false;
        case Missing =>
          scopeComplete := false;
        case Undecidable =>
          scopeComplete := false;
        case Decided(id, bot) =>
          if id in scope {
            if scope[id].target != item.ref {
              results := results + [SameChatAt(item.path, scope[id].target, item.ref, id)];
            }
          } else {
            scope := scope[id := Target(item.ref, bot)];
          }
      }
    }

    /** The delivery targets `items` are checked and nothing else. */
    ghost predicate CheckedTargets(items: seq<Item>)
      reads this
    {
      Recorded(items) && results == TargetFindings(chats, multiBotPossible, items)
    }

    method AddNextTarget(item: Item, ghost items: seq<Item>)
      requires CheckedTargets(items)
      modifies this
      ensures CheckedTargets(items + [item])
    {
      TargetFindingsAppend(chats, multiBotPossible, items, item);
      AddTarget(item, items);
    }

    /** Everything found for the sender's chats and the route chats `checked`. */
    ghost predicate Checked(sn: SenderConfig, checked: seq<Item>)
      reads this
    {
      if sn.chats == [] then
        CheckedTargets(checked)
      else
        CheckedRoutes(sn, checked)
    }

    ghost predicate CheckedRoutes(sn: SenderConfig, checked: seq<Item>)
      reads this
    {
      Recorded(ChatItems(sn.chats))
      && results == TargetFindings(chats, multiBotPossible, ChatItems(sn.chats))
                    + RouteFindings(chats, sn.chats, checked)
    }

    method AddNextRouteChat(sn: SenderConfig, item: Item, ghost checked: seq<Item>)
      requires CheckedRoutes(sn, checked)
      modifies this`results
      ensures CheckedRoutes(sn, checked + [item])
    {
      ghost var items := ChatItems(sn.chats);
      ChatItemsRefs(sn.chats);
      CheckRouteChat(item, items);
      RouteFindingsNext(chats, sn.chats, TargetFindings(chats, multiBotPossible, items), checked, item);
    }

    method CheckChats(sn: SenderConfig)
      requires Recorded([]) && results == []
      modifies this
      ensures Checked(sn, [])
    {
      for j := 0 to |sn.chats|
        invariant CheckedTargets(ChatItems(sn.chats[..j]))
      {
        NextChatItem(sn.chats, j);
        AddNextTarget(Item(sn.chats[j], ChatPath(j)), ChatItems(sn.chats[..j]));
      }
      assert sn.chats[..|sn.chats|] == sn.chats;
    }

    method CheckRouteItem(sn: SenderConfig, item: Item, ghost checked: seq<Item>)
      requires Checked(sn, checked)
      modifies this
      ensures Checked(sn, checked + [item])
    {
      if sn.chats == [] {
        AddNextTarget(item, checked);
      } else {
        AddNextRouteChat(sn, item, checked);
      }
    }

    method CheckRoute(sn: SenderConfig, refs: seq<string>, path: Path, ghost done: seq<Item>)
      requires Checked(sn, done)
      modifies this
      ensures Checked(sn, done + ItemsAt(refs, path))
    {
      ghost var checked := done;
      assert done + ItemsAt(refs[..0], path) == done;
      for k := 0 to |refs|
        invariant Checked(sn, checked) && checked == done + ItemsAt(refs[..k], path)
      {
        var item := Item(refs[k], path);
        CheckRouteItem(sn, item, checked);
        NextItemAt(done, refs, k, path);
        checked := checked + [item];
      }
      assert refs[..|refs|] == refs;
    }

    method CheckRoutes(sn: SenderConfig)
      requires Checked(sn, [])
      modifies this
      ensures Checked(sn, RouteItems(sn.routes))
    {
      for i := 0 to |sn.routes|
        invariant Checked(sn, RouteItems(sn.routes[..i]))
      {
        CheckRoute(sn, sn.routes[i], RoutePath(i), RouteItems(sn.routes[..i]));
        RouteItemsNext(sn.routes, i);
      }
      assert sn.routes[..|sn.routes|] == sn.routes;
    }

    method CheckRouteChat(item: Item, ghost items: seq<Item>)
      requires Recorded(items)
      modifies this`results
      ensures results == old(results) + RouteErrors(chats, Refs(items), item)
    {
      match Classify(chats, item.ref) {
        case Unknown =>
          results := results + [UnknownAliasAt(item.path, item.ref)];
        case Missing =>
        case Undecidable =>
        case Decided(id, bot) =>
          if id !in scope {
            if scopeComplete {
              results := results + [OutsideScopeAt(item.path, item.ref)];
            }
          } else if scope[id].BotConflict(item.ref, bot) {
            results := results + [BotClashAt(item.path, item.ref, bot, scope[id])];
          }
      }
    }
  }

  lemma NextChatItem(chats: seq<string>, j: nat)
    requires j < |chats|
    ensures ChatItems(chats[..j + 1]) == ChatItems(chats[..j]) + [Item(chats[j], ChatPath(j))]
  {}

  lemma ChatItemsRefs(chats: seq<string>)
    ensures Refs(ChatItems(chats)) == chats
  {}

  lemma RefsAppend(items: seq<Item>, item: Item)
    ensures Refs(items + [item]) == Refs(items) + [item.ref]
  {}

  lemma TargetFindingsAppend(chats: Chats, multiBotPossible: bool, items: seq<Item>, item: Item)
    ensures TargetFindings(chats, multiBotPossible, items + [item]) ==
            TargetFindings(chats, multiBotPossible, items)
            + Warnings(chats, multiBotPossible, Refs(items), item) + TargetErrors(chats, Refs(items), item)
  {
    assert (items + [item])[..|items|] == items;
  }

  lemma RouteFindingsAppend(chats: Chats, targets: seq<string>, items: seq<Item>, item: Item)
    ensures RouteFindings(chats, targets, items + [item]) ==
            RouteFindings(chats, targets, items) + RouteErrors(chats, targets, item)
  {
    assert (items + [item])[..|items|] == items;
  }

  lemma RouteFindingsNext(chats: Chats, targets: seq<string>, found: seq<Finding>, items: seq<Item>, item: Item)
    ensures found + RouteFindings(chats, targets, items + [item]) ==
            found + RouteFindings(chats, targets, items) + RouteErrors(chats, targets, item)
  {
    RouteFindingsAppend(chats, targets, items, item);
    Regroup(found, RouteFindings(chats, targets, items), RouteErrors(chats, targets, item));
  }

  lemma Regroup<T>(a: seq<T>, b: seq<T>, c: seq<T>)
    ensures a + (b + c) == a + b + c
  {}

  lemma NextItemAt(done: seq<Item>, refs: seq<string>, k: nat, path: Path)
    requires k < |refs|
    ensures done + ItemsAt(refs[..k], path) + [Item(refs[k], path)] == done + ItemsAt(refs[..k + 1], path)
  {
    assert ItemsAt(refs[..k + 1], path) == ItemsAt(refs[..k], path) + [Item(refs[k], path)];
  }

  lemma RouteItemsNext(routes: seq<seq<string>>, i: nat)
    requires i < |routes|
    ensures RouteItems(routes[..i]) + ItemsAt(routes[i], RoutePath(i)) == RouteItems(routes[..i + 1])
  {
    assert routes[..i + 1][..i] == routes[..i];
  }

  method ValidateTargets(chats: Chats, multiBotPossible: bool, sn: SenderConfig) returns (results: seq<Finding>)
    ensures results == Findings(chats, multiBotPossible, sn)
  {
    var check := new SenderCheck(chats, multiBotPossible);
    check.CheckChats(sn);
    check.CheckRoutes(sn);
    return check.results;
  }
}
