/** internal/server/gitlab_routing.go: which routing rules an event matches and which chats it
    goes to. */
module GitlabRouting {
  import Glob
  import opened Lists
  import opened Wrappers
  import Text

  /** A compiled pattern. A regular expression is an arbitrary test. */
  datatype Matcher = GlobMatcher(pattern: string) | RegexMatcher(test: string -> bool)

  datatype Condition =
    | ValueCondition(selector: string, matchers: seq<Matcher>)
    | EventCondition(entries: seq<string>)

  datatype Route = Route(conds: seq<Condition>, chats: seq<string>, stop: bool)

  /** An event: its keys, and the candidate values each selector resolves to. */
  datatype View = View(kind: string, eventKey: string, resolve: string -> seq<string>)

  ghost predicate Accepts(m: Matcher, value: string) {
    match m
    case GlobMatcher(pattern) => Glob.Denotes(pattern, value)
    case RegexMatcher(test) => test(value)
  }

  predicate EntryMatches(kind: string, eventKey: string, e: string) {
    e == eventKey || e == kind || e == kind + ".*"
  }

  ghost predicate Holds(c: Condition, view: View) {
    match c
    case EventCondition(entries) => exists e :: e in entries && EntryMatches(view.kind, view.eventKey, e)
    case ValueCondition(selector, matchers) =>
      exists v, m :: v in view.resolve(selector) && m in matchers && Accepts(m, v)
  }

  ghost predicate Applies(route: Route, view: View) {
    forall c :: c in route.conds ==> Holds(c, view)
  }

  /** An entry `kind` or `kind.*` matches every event of that kind, any other `kind.subtype` exactly the events
      of that kind and subtype. */
  lemma EntryMeaning(kind: string, subtype: Option<string>, k: string, sub: string)
    requires '.' !in kind && '.' !in k
    ensures var eventKey := if subtype.None? then kind else kind + "." + subtype.value;
            && (EntryMatches(kind, eventKey, k) <==> k == kind)
            && (EntryMatches(kind, eventKey, k + "." + sub) <==> k == kind && (sub == "*" || subtype == Some(sub)))
  {
    var entry := k + "." + sub;
    assert entry[|k|] == '.' && entry[|k|] in entry;
    assert kind + ".*" == kind + "." + "*";
    assert forall x: string :: '.' in kind + "." + x by {
      forall x: string ensures '.' in kind + "." + x { assert (kind + "." + x)[|kind|] == '.'; }
    }
    if entry == kind + "." + "*" { FirstDot(k, sub, kind, "*"); }
    if subtype.Some? && entry == kind + "." + subtype.value { FirstDot(k, sub, kind, subtype.value); }
  }

  lemma FirstDot(a: string, x: string, b: string, y: string)
    requires '.' !in a && '.' !in b && a + "." + x == b + "." + y
    ensures a == b && x == y
  {
    var s := a + "." + x;
    Text.SplitAtFirst(s, a, '.', x);
    Text.SplitAtFirst(s, b, '.', y);
  }

  method Matches(m: Matcher, value: string) returns (b: bool)
    ensures b <==> Accepts(m, value)
  {
    match m {
      case GlobMatcher(pattern) => b := Glob.GlobMatch(pattern, value);
      case RegexMatcher(test) => b := test(value);
    }
  }

  method EventMatches(kind: string, eventKey: string, entries: seq<string>) returns (b: bool)
    ensures b <==> exists e :: e in entries && EntryMatches(kind, eventKey, e)
  {
    for i := 0 to |entries|
      invariant forall e :: e in entries[..i] ==> !EntryMatches(kind, eventKey, e)
    {
      if EntryMatches(kind, eventKey, entries[i]) {
        return true;
      }
    }
    return false;
  }

  method ConditionMatches(values: seq<string>, matchers: seq<Matcher>) returns (b: bool)
    ensures b <==> exists v, m :: v in values && m in matchers && Accepts(m, v)
  {
    for i := 0 to |values|
      invariant forall v, m :: v in values[..i] && m in matchers ==> !Accepts(m, v)
    {
      for j := 0 to |matchers|
        invariant forall m :: m in matchers[..j] ==> !Accepts(m, values[i])
      {
        var hit := Matches(matchers[j], values[i]);
        if hit {
          assert values[i] in values && matchers[j] in matchers;
          return true;
        }
      }
    }
    return false;
  }

  method RouteMatches(view: View, route: Route) returns (b: bool)
    ensures b <==> Applies(route, view)
  {
    for i := 0 to |route.conds|
      invariant forall c :: c in route.conds[..i] ==> Holds(c, view)
    {
      var cond := route.conds[i];
      var holds;
      match cond {
        case EventCondition(entries) => holds := EventMatches(view.kind, view.eventKey, entries);
        case ValueCondition(selector, matchers) => holds := ConditionMatches(view.resolve(selector), matchers);
      }
      if !holds {
        assert cond in route.conds;
        return false;
      }
    }
    return true;
  }

  /** Some earlier matching rule has stopped the scan. */
  ghost predicate Stopped(routes: seq<Route>, view: View, i: nat)
    requires i <= |routes|
  {
    exists j :: 0 <= j < i && Applies(routes[j], view) && routes[j].stop
  }

  /** The rules that count: those that match, up to and including the first matching stop. */
  ghost function Selected(routes: seq<Route>, view: View, n: nat): seq<nat>
    requires n <= |routes|
  {
    if n == 0 then [] else
      Selected(routes, view, n - 1)
      + if Applies(routes[n - 1], view) && !Stopped(routes, view, n - 1) then [n - 1] else []
  }

  /** The chats of the given rules, one rule after the other. */
  function ChatsOf(routes: seq<Route>, rules: seq<nat>): seq<string> {
    if rules == [] then [] else
      var last := rules[|rules| - 1];
      ChatsOf(routes, rules[..|rules| - 1]) + if last < |routes| then routes[last].chats else []
  }

  lemma {:induction false} NothingAfterStop(routes: seq<Route>, view: View, i: nat, n: nat)
    requires i <= n <= |routes| && Stopped(routes, view, i)
    ensures Selected(routes, view, n) == Selected(routes, view, i)
    decreases n
  {
    if i < n {
      NothingAfterStop(routes, view, i, n - 1);
      var j :| 0 <= j < i && Applies(routes[j], view) && routes[j].stop;
      assert Stopped(routes, view, n - 1);
    }
  }

  lemma ChatsOfAppend(routes: seq<Route>, rules: seq<nat>, i: nat)
    ensures ChatsOf(routes, rules + [i]) == ChatsOf(routes, rules) + if i < |routes| then routes[i].chats else []
  {
    assert (rules + [i])[..|rules|] == rules;
  }

  /** The chats of some rules are followed by those of further rules. */
  lemma {:induction false} ChatsOfConcat(routes: seq<Route>, front: seq<nat>, back: seq<nat>)
    ensures ChatsOf(routes, front + back) == ChatsOf(routes, front) + ChatsOf(routes, back)
  {
    if back == [] {
      assert front + back == front;
    } else {
      var before, last := back[..|back| - 1], back[|back| - 1];
      LastBehind(front, back);
      ChatsOfConcat(routes, front, before);
      ChatsOfAppend(routes, before, last);
      ChatsOfAppend(routes, front + before, last);
    }
  }

  /** The chats come rule after rule, those of one rule in its own order. */
  lemma ChatsOfRuleByRule(routes: seq<Route>, front: seq<nat>, i: nat, back: seq<nat>)
    requires i < |routes|
    ensures ChatsOf(routes, front + [i] + back) == ChatsOf(routes, front) + routes[i].chats + ChatsOf(routes, back)
  {
    ChatsOfConcat(routes, front + [i], back);
    ChatsOfAppend(routes, front, i);
  }

  /** Taking in one more chat, whether seen before or not. */
  lemma AddNext(all: seq<string>, more: seq<string>, k: nat)
    requires k < |more|
    ensures var before := Dedup(all + more[..k]);
            Dedup(all + more[..k + 1]) == if more[k] in before then before else before + [more[k]]
  {
    var before := all + more[..k];
    assert all + more[..k + 1] == before + [more[k]];
    DedupAppend(before, more[k]);
    assert Dedup(before) + [] == Dedup(before);
  }

  /** The chats of the given rules, each once, and the set of them. */
  ghost predicate Collected(routes: seq<Route>, rules: seq<nat>, chats: seq<string>, seen: set<string>) {
    chats == Dedup(ChatsOf(routes, rules)) && SameMembers(chats, seen)
  }

  ghost predicate SameMembers(chats: seq<string>, seen: set<string>) {
    forall c :: c in seen <==> c in chats
  }

  /** The chats of some rules, and the first k of one rule more. */
  ghost predicate CollectedUpTo(all: seq<string>, more: seq<string>, k: nat, chats: seq<string>, seen: set<string>)
    requires k <= |more|
  {
    chats == Dedup(all + more[..k]) && SameMembers(chats, seen)
  }

  lemma CollectedUpToNone(all: seq<string>, more: seq<string>, chats: seq<string>, seen: set<string>)
    requires chats == Dedup(all) && SameMembers(chats, seen)
    ensures CollectedUpTo(all, more, 0, chats, seen)
  {
    assert all + more[..0] == all;
  }

  lemma OneChatMore(all: seq<string>, more: seq<string>, k: nat, chats: seq<string>, seen: set<string>)
    requires k < |more| && CollectedUpTo(all, more, k, chats, seen)
    ensures if more[k] in seen then CollectedUpTo(all, more, k + 1, chats, seen)
            else CollectedUpTo(all, more, k + 1, chats + [more[k]], seen + {more[k]})
  {
    AddNext(all, more, k);
  }

  method AddRule(routes: seq<Route>, ghost rules: seq<nat>, i: nat, chats: seq<string>, seen: set<string>)
    returns (chats': seq<string>, seen': set<string>)
    requires i < |routes| && Collected(routes, rules, chats, seen)
    ensures Collected(routes, rules + [i], chats', seen')
  {
    var more := routes[i].chats;
    ghost var all := ChatsOf(routes, rules);
    chats', seen' := chats, seen;
    CollectedUpToNone(all, more, chats, seen);
    for k := 0 to |more|
      invariant CollectedUpTo(all, more, k, chats', seen')
    {
      OneChatMore(all, more, k, chats', seen');
      if more[k] !in seen' {
        seen' := seen' + {more[k]};
        chats' := chats' + [more[k]];
      }
    }
    RuleAdded(routes, rules, i, chats', seen');
  }

  lemma RuleAdded(routes: seq<Route>, rules: seq<nat>, i: nat, chats: seq<string>, seen: set<string>)
    requires i < |routes|
    requires CollectedUpTo(ChatsOf(routes, rules), routes[i].chats, |routes[i].chats|, chats, seen)
    ensures Collected(routes, rules + [i], chats, seen)
  {
    assert routes[i].chats[..|routes[i].chats|] == routes[i].chats;
    ChatsOfAppend(routes, rules, i);
  }

  lemma RuleSkipped(routes: seq<Route>, view: View, i: nat)
    requires i < |routes| && !Stopped(routes, view, i) && !Applies(routes[i], view)
    ensures Selected(routes, view, i + 1) == Selected(routes, view, i) && !Stopped(routes, view, i + 1)
  {}

  lemma RuleTaken(routes: seq<Route>, view: View, i: nat)
    requires i < |routes| && !Stopped(routes, view, i) && Applies(routes[i], view)
    ensures Selected(routes, view, i + 1) == Selected(routes, view, i) + [i]
    ensures if routes[i].stop then Selected(routes, view, |routes|) == Selected(routes, view, i) + [i]
            else !Stopped(routes, view, i + 1)
  {
    if routes[i].stop {
      assert Stopped(routes, view, i + 1);
      NothingAfterStop(routes, view, i + 1, |routes|);
    }
  }

  /** The variables of the scan in front of rule i. */
  ghost predicate ScanAt(routes: seq<Route>, view: View, i: nat, matched: bool, matchedRules: seq<nat>)
    requires i <= |routes|
  {
    matchedRules == Selected(routes, view, i) && !Stopped(routes, view, i) && (matched <==> matchedRules != [])
  }

  method EvaluateRoutes(routes: seq<Route>, view: View)
    returns (chats: seq<string>, matched: bool, matchedRules: seq<nat>)
    ensures matchedRules == Selected(routes, view, |routes|)
    ensures matched <==> matchedRules != []
    ensures chats == Dedup(ChatsOf(routes, matchedRules))
  {
    chats, matched, matchedRules := [], false, [];
    var seen: set<string> := {};
    for i := 0 to |routes|
      invariant ScanAt(routes, view, i, matched, matchedRules)
      invariant Collected(routes, matchedRules, chats, seen)
    {
      var applies := RouteMatches(view, routes[i]);
      if !applies {
        RuleSkipped(routes, view, i);
        continue;
      }
      RuleTaken(routes, view, i);
      matched := true;
      chats, seen := AddRule(routes, matchedRules, i, chats, seen);
      matchedRules := matchedRules + [i];
      if routes[i].stop {
        break;
      }
    }
  }

  /** The rules that count are exactly the matching ones no matching stop precedes, each once. */
  lemma {:induction false} SelectedExactly(routes: seq<Route>, view: View, n: nat)
    requires n <= |routes|
    ensures forall i: nat :: i in Selected(routes, view, n) <==>
                             i < n && Applies(routes[i], view) && !Stopped(routes, view, i)
    ensures forall a, b :: 0 <= a < b < |Selected(routes, view, n)| ==>
                           Selected(routes, view, n)[a] < Selected(routes, view, n)[b]
  {
    if n > 0 {
      SelectedExactly(routes, view, n - 1);
      var before := Selected(routes, view, n - 1);
      forall a | 0 <= a < |before|
        ensures before[a] < n - 1
      {
        assert before[a] in before;
      }
    }
  }

  lemma {:induction false} ChatsOfMembers(routes: seq<Route>, rules: seq<nat>, chat: string)
    requires forall r :: r in rules ==> r < |routes|
    ensures chat in ChatsOf(routes, rules) <==> exists r :: r in rules && chat in routes[r].chats
  {
    if rules != [] {
      var n := |rules| - 1;
      assert rules[n] in rules && forall r :: r in rules[..n] ==> r in rules;
      ChatsOfMembers(routes, rules[..n], chat);
      assert rules == rules[..n] + [rules[n]];
      if chat in routes[rules[n]].chats { assert rules[n] in rules; }
      if r :| r in rules && chat in routes[r].chats {
        if r in rules[..n] {} else { assert r == rules[n]; }
      }
    }
  }

  /** Delivery names no chat twice and exactly the chats of the rules that count. */
  lemma {:induction false} DeliveryOfEvent(routes: seq<Route>, view: View, chat: string)
    ensures Distinct(Dedup(ChatsOf(routes, Selected(routes, view, |routes|))))
    ensures chat in Dedup(ChatsOf(routes, Selected(routes, view, |routes|))) <==>
            exists i :: 0 <= i < |routes| && Applies(routes[i], view) && !Stopped(routes, view, i)
                        && chat in routes[i].chats
  {
    var rules := Selected(routes, view, |routes|);
    DedupDistinct(ChatsOf(routes, rules));
    SelectedExactly(routes, view, |routes|);
    ChatsOfMembers(routes, rules, chat);
  }
}
