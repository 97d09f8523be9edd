/** GitLab delivery targets: buildGitlabSender of internal/cmd/serve.go, which stops at the first
    fault, and the offline mirror of its rules in validateCrossReferences of
    internal/config/config.go, which reports everything it can decide. */
module GitlabSender {
  import opened ChatRefs
  import opened Lists
  import opened Wrappers

  /** A delivery target and the bot its alias is bound to. */
  datatype Target = Target(target: string, bot: string) {
    /** Delivering `ref`, bound to `refBot`, through this target would switch the sending bot. */
    predicate BotConflict(ref: string, refBot: string) {
      ref != target && refBot != "" && bot != "" && refBot != bot
    }
  }

  datatype SenderConfig = SenderConfig(chats: seq<string>, routes: seq<seq<string>>)

  datatype Sender = Sender(scope: map<string, Target>, targets: seq<string>, routes: seq<seq<string>>)

  /** What a reference identifies: the canonical chat id and the target it would become. */
  datatype Key = Key(id: string, target: Target)

  function Concat(lists: seq<seq<string>>): seq<string> {
    if lists == [] then [] else Concat(lists[..|lists| - 1]) + lists[|lists| - 1]
  }

  /** The delivery targets of a sender: its chats, or those of its routes when it has none. */
  function TargetRefs(sn: SenderConfig): seq<string> {
    if sn.chats != [] then sn.chats else Concat(sn.routes)
  }

  /** The first target for every canonical id, in the order of `refs`. */
  function Scope(key: string -> Option<Key>, refs: seq<string>): map<string, Target> {
    if refs == [] then map[] else
      var scope := Scope(key, refs[..|refs| - 1]);
      match key(refs[|refs| - 1])
      case None => scope
      case Some(k) => if k.id in scope then scope else scope[k.id := k.target]
  }

  lemma ScopeAppend(key: string -> Option<Key>, refs: seq<string>, ref: string)
    ensures Scope(key, refs + [ref]) ==
            match key(ref)
            case None => Scope(key, refs)
            case Some(k) => if k.id in Scope(key, refs) then Scope(key, refs) else Scope(key, refs)[k.id := k.target]
  {
    assert (refs + [ref])[..|refs|] == refs;
  }

  /** The scope holds exactly the ids of the references, each under its first reference. */
  lemma {:induction false} ScopeMeaning(key: string -> Option<Key>, refs: seq<string>, id: string)
    ensures id in Scope(key, refs) <==> exists r :: r in refs && key(r).Some? && key(r).value.id == id
    ensures id in Scope(key, refs) ==>
              exists j :: 0 <= j < |refs| && key(refs[j]) == Some(Key(id, Scope(key, refs)[id]))
                          && forall i :: 0 <= i < j ==> key(refs[i]).None? || key(refs[i]).value.id != id
  {
    if refs != [] {
      var n := |refs| - 1;
      ScopeMeaning(key, refs[..n], id);
      assert refs == refs[..n] + [refs[n]];
      assert refs[n] in refs && forall r :: r in refs[..n] ==> r in refs;
      if id in Scope(key, refs[..n]) {
        var j :| 0 <= j < n && key(refs[..n][j]) == Some(Key(id, Scope(key, refs[..n])[id]))
                 && forall i :: 0 <= i < j ==> key(refs[..n][i]).None? || key(refs[..n][i]).value.id != id;
        assert forall i :: 0 <= i < n ==> refs[..n][i] == refs[i];
        assert key(refs[j]) == Some(Key(id, Scope(key, refs)[id]));
      } else {
        assert forall i :: 0 <= i < n ==> refs[i] in refs[..n];
        if id in Scope(key, refs) {
          assert key(refs[n]) == Some(Key(id, Scope(key, refs)[id]));
        }
      }
    }
  }

  // ---- the startup builder -----------------------------------------------------------------

  datatype Fault =
    | Unresolvable(ref: string, error: RefError)
    | RawUuid(ref: string)
    | Unbound(ref: string)
    | SameChat(previous: string, ref: string, id: string)
    | OutsideScope(ref: string)
    | BotClash(ref: string, bot: string, target: Target)

  datatype BuildError = BadChats(fault: Fault) | BadRoutes(fault: Fault) | BadRoute(route: nat, fault: Fault)

  datatype BuildResult = Built(sender: Sender) | Rejected(error: BuildError)

  function TargetKey(chats: Chats, ref: string): Option<Key> {
    match ResolveChatRef(chats, ref)
    case Resolved(id, bot) => Some(Key(id, Target(ref, bot)))
    case Unresolved(_) => None
  }

  function BuiltScope(chats: Chats, refs: seq<string>): map<string, Target> {
    Scope(r => TargetKey(chats, r), refs)
  }

  /** What is wrong with `ref` as the next delivery target after `before`. */
  function TargetFault(chats: Chats, multiBot: bool, before: seq<string>, ref: string): Option<Fault> {
    match ResolveChatRef(chats, ref)
    case Unresolved(error) => Some(Unresolvable(ref, error))
    case Resolved(id, bot) =>
      var scope := BuiltScope(chats, before);
      if multiBot && IsUUID(ref) then Some(RawUuid(ref))
      else if multiBot && bot == "" then Some(Unbound(ref))
      else if id in scope && scope[id].target != ref then Some(SameChat(scope[id].target, ref, id))
      else None
  }

  /** What is wrong with `ref` as a route chat of a sender with explicit targets. */
  function RouteFault(chats: Chats, targets: seq<string>, ref: string): Option<Fault> {
    match ResolveChatRef(chats, ref)
    case Unresolved(error) => Some(Unresolvable(ref, error))
    case Resolved(id, bot) =>
      var scope := BuiltScope(chats, targets);
      if id !in scope then Some(OutsideScope(ref))
      else if scope[id].BotConflict(ref, bot) then Some(BotClash(ref, bot, scope[id]))
      else None
  }

  ghost predicate NoTargetFault(chats: Chats, multiBot: bool, refs: seq<string>) {
    forall k :: 0 <= k < |refs| ==> TargetFault(chats, multiBot, refs[..k], refs[k]).None?
  }

  ghost predicate NoRouteFault(chats: Chats, targets: seq<string>, refs: seq<string>) {
    forall k :: 0 <= k < |refs| ==> RouteFault(chats, targets, refs[k]).None?
  }

  ghost predicate FirstTargetFault(chats: Chats, multiBot: bool, refs: seq<string>, fault: Fault) {
    exists k :: 0 <= k < |refs| && NoTargetFault(chats, multiBot, refs[..k])
                && TargetFault(chats, multiBot, refs[..k], refs[k]) == Some(fault)
  }

  ghost predicate FirstRouteFault(chats: Chats, targets: seq<string>, refs: seq<string>, fault: Fault) {
    exists k :: 0 <= k < |refs| && NoRouteFault(chats, targets, refs[..k])
                && RouteFault(chats, targets, refs[k]) == Some(fault)
  }

  lemma NoTargetFaultAppend(chats: Chats, multiBot: bool, refs: seq<string>, ref: string)
    ensures NoTargetFault(chats, multiBot, refs + [ref]) <==>
            NoTargetFault(chats, multiBot, refs) && TargetFault(chats, multiBot, refs, ref).None?
  {
    var all := refs + [ref];
    assert all[..|refs|] == refs && all[|refs|] == ref;
    assert forall k :: 0 <= k < |refs| ==> all[..k] == refs[..k] && all[k] == refs[k];
  }

  lemma FirstFaultExtends(chats: Chats, multiBot: bool, refs: seq<string>, more: seq<string>, fault: Fault)
    requires FirstTargetFault(chats, multiBot, refs, fault)
    ensures FirstTargetFault(chats, multiBot, refs + more, fault)
  {
    var k :| 0 <= k < |refs| && NoTargetFault(chats, multiBot, refs[..k])
             && TargetFault(chats, multiBot, refs[..k], refs[k]) == Some(fault);
    assert (refs + more)[..k] == refs[..k] && (refs + more)[k] == refs[k];
  }

  /** The builder's variables after the fault-free references `done`. */
  ghost predicate Collected(chats: Chats, multiBot: bool, done: seq<string>, scope: map<string, Target>,
                            targets: seq<string>)
  {
    NoTargetFault(chats, multiBot, done) && scope == BuiltScope(chats, done) && targets == Dedup(done)
  }

  method AddTarget(chats: Chats, multiBot: bool, raw: string, scope: map<string, Target>, targets: seq<string>,
                   ghost done: seq<string>)
    returns (fault: Option<Fault>, scope': map<string, Target>, targets': seq<string>)
    requires Collected(chats, multiBot, done, scope, targets)
    ensures fault == TargetFault(chats, multiBot, done, raw)
    ensures fault.None? ==> Collected(chats, multiBot, done + [raw], scope', targets')
  {
    scope', targets' := scope, targets;
    fault := CheckTarget(chats, multiBot, raw, scope, done);
    if fault.Some? {
      return;
    }
    NoTargetFaultAppend(chats, multiBot, done, raw);
    ScopeAppend(r => TargetKey(chats, r), done, raw);
    DedupAppend(done, raw);
    InScopeIffSeen(chats, multiBot, done, raw);
    var resolved := ResolveChatRef(chats, raw);
    if resolved.id !in scope {
      scope' := scope[resolved.id := Target(raw, resolved.bot)];
      targets' := targets + [raw];
    }
  }

  /** Adding one list of references behind those already added. */
  method AddTargets(chats: Chats, multiBot: bool, refs: seq<string>, scope: map<string, Target>, targets: seq<string>,
                    ghost before: seq<string>)
    returns (fault: Option<Fault>, scope': map<string, Target>, targets': seq<string>)
    requires Collected(chats, multiBot, before, scope, targets)
    ensures fault.None? ==> Collected(chats, multiBot, before + refs, scope', targets')
    ensures fault.Some? ==> FirstTargetFault(chats, multiBot, before + refs, fault.value)
  {
    scope', targets' := scope, targets;
    ghost var done := before;
    for k := 0 to |refs|
      invariant done == before + refs[..k]
      invariant Collected(chats, multiBot, done, scope', targets')
    {
      fault, scope', targets' := AddTarget(chats, multiBot, refs[k], scope', targets', done);
      if fault.Some? {
        FaultAt(chats, multiBot, before, refs, k, fault.value);
        return;
      }
      TakeOneMore(before, refs, k);
      done := done + [refs[k]];
    }
    assert refs[..|refs|] == refs;
    fault := None;
  }

  lemma TakeOneMore(before: seq<string>, refs: seq<string>, k: nat)
    requires k < |refs|
    ensures before + refs[..k] + [refs[k]] == before + refs[..k + 1]
  {}

  lemma FaultAt(chats: Chats, multiBot: bool, before: seq<string>, refs: seq<string>, k: nat, fault: Fault)
    requires k < |refs| && NoTargetFault(chats, multiBot, before + refs[..k])
    requires TargetFault(chats, multiBot, before + refs[..k], refs[k]) == Some(fault)
    ensures FirstTargetFault(chats, multiBot, before + refs, fault)
  {
    var all, i := before + refs, |before| + k;
    assert all[..i] == before + refs[..k] && all[i] == refs[k];
  }

  method CheckTarget(chats: Chats, multiBot: bool, raw: string, scope: map<string, Target>, ghost before: seq<string>)
    returns (fault: Option<Fault>)
    requires scope == BuiltScope(chats, before)
    ensures fault == TargetFault(chats, multiBot, before, raw)
  {
    var resolved := ResolveChatRef(chats, raw);
    if resolved.Unresolved? {
      return Some(Unresolvable(raw, resolved.error));
    }
    if multiBot && IsUUID(raw) {
      return Some(RawUuid(raw));
    }
    if multiBot && resolved.bot == "" {
      return Some(Unbound(raw));
    }
    if resolved.id in scope {
      if scope[resolved.id].target != raw {
        return Some(SameChat(scope[resolved.id].target, raw, resolved.id));
      }
    }
    return None;
  }

  /** With no fault so far, a good reference has its id in scope exactly when it was seen itself. */
  lemma InScopeIffSeen(chats: Chats, multiBot: bool, before: seq<string>, ref: string)
    requires NoTargetFault(chats, multiBot, before) && TargetFault(chats, multiBot, before, ref).None?
    ensures ResolveChatRef(chats, ref).id in BuiltScope(chats, before) <==> ref in before
  {
    ScopeMeaning(r => TargetKey(chats, r), before, ResolveChatRef(chats, ref).id);
  }

  /** The route chats of one route, replaced by the targets they stand for. */
  function Rewrite(chats: Chats, targets: seq<string>, refs: seq<string>): seq<string>
    requires NoRouteFault(chats, targets, refs)
  {
    if refs == [] then [] else
      var n := |refs| - 1;
      assert RouteFault(chats, targets, refs[n]).None?;
      assert NoRouteFault(chats, targets, refs[..n]);
      Rewrite(chats, targets, refs[..n])
      + [BuiltScope(chats, targets)[ResolveChatRef(chats, refs[n]).id].target]
  }

  method RewriteRoute(chats: Chats, refs: seq<string>, scope: map<string, Target>, ghost targets: seq<string>)
    returns (fault: Option<Fault>, rewritten: seq<string>)
    requires scope == BuiltScope(chats, targets)
    ensures fault.None? ==> NoRouteFault(chats, targets, refs) && rewritten == Rewrite(chats, targets, refs)
    ensures fault.Some? ==> FirstRouteFault(chats, targets, refs, fault.value)
  {
    rewritten := [];
    for k := 0 to |refs|
      invariant NoRouteFault(chats, targets, refs[..k])
      invariant rewritten == Rewrite(chats, targets, refs[..k])
    {
      var raw := refs[k];
      var resolved := ResolveChatRef(chats, raw);
      if resolved.Unresolved? {
        return Some(Unresolvable(raw, resolved.error)), [];
      }
      if resolved.id !in scope {
        return Some(OutsideScope(raw)), [];
      }
      var entry := scope[resolved.id];
      if entry.BotConflict(raw, resolved.bot) {
        return Some(BotClash(raw, resolved.bot, entry)), [];
      }
      assert RouteFault(chats, targets, raw).None?;
      assert NoRouteFault(chats, targets, refs[..k + 1]);
      assert refs[..k + 1][..k] == refs[..k];
      rewritten := rewritten + [entry.target];
    }
    assert refs[..|refs|] == refs;
    fault := None;
  }

  ghost predicate IsRewritten(chats: Chats, targets: seq<string>, refs: seq<string>, rewritten: seq<string>) {
    NoRouteFault(chats, targets, refs) && rewritten == Rewrite(chats, targets, refs)
  }

  /** The sender a fault-free configuration builds. */
  ghost predicate IsSenderFor(chats: Chats, sn: SenderConfig, sender: Sender) {
    && sender.scope == BuiltScope(chats, TargetRefs(sn))
    && sender.targets == Dedup(TargetRefs(sn))
    && |sender.routes| == |sn.routes|
    && (sn.chats == [] ==> sender.routes == sn.routes)
    && (sn.chats != [] ==> forall i :: 0 <= i < |sn.routes| ==>
          IsRewritten(chats, sn.chats, sn.routes[i], sender.routes[i]))
  }

  ghost predicate FirstBadRoute(chats: Chats, targets: seq<string>, routes: seq<seq<string>>, error: BuildError) {
    && error.BadRoute? && error.route < |routes|
    && (forall j :: 0 <= j < error.route ==> NoRouteFault(chats, targets, routes[j]))
    && FirstRouteFault(chats, targets, routes[error.route], error.fault)
  }

  ghost predicate IsFirstFault(chats: Chats, multiBot: bool, sn: SenderConfig, error: BuildError) {
    match error
    case BadChats(fault) => sn.chats != [] && FirstTargetFault(chats, multiBot, sn.chats, fault)
    case BadRoutes(fault) => sn.chats == [] && FirstTargetFault(chats, multiBot, Concat(sn.routes), fault)
    case BadRoute(_, _) =>
      sn.chats != [] && NoTargetFault(chats, multiBot, sn.chats) && FirstBadRoute(chats, sn.chats, sn.routes, error)
  }

  lemma {:induction false} ConcatFault(chats: Chats, multiBot: bool, routes: seq<seq<string>>, i: nat, fault: Fault)
    requires i <= |routes| && FirstTargetFault(chats, multiBot, Concat(routes[..i]), fault)
    ensures FirstTargetFault(chats, multiBot, Concat(routes), fault)
    decreases |routes| - i
  {
    if i == |routes| {
      assert routes[..i] == routes;
    } else {
      assert routes[..i + 1][..i] == routes[..i];
      FirstFaultExtends(chats, multiBot, Concat(routes[..i]), routes[i], fault);
      ConcatFault(chats, multiBot, routes, i + 1, fault);
    }
  }

  /** The routes in place: each replaced by the targets its chats stand for. */
  method RewriteRoutes(chats: Chats, configured: seq<seq<string>>, scope: map<string, Target>,
                       ghost targets: seq<string>)
    returns (error: Option<BuildError>, routes: seq<seq<string>>)
    requires scope == BuiltScope(chats, targets)
    ensures |routes| == |configured|
    ensures error.None? ==> forall j :: 0 <= j < |routes| ==> IsRewritten(chats, targets, configured[j], routes[j])
    ensures error.Some? ==> FirstBadRoute(chats, targets, configured, error.value)
  {
    routes := configured;
    for i := 0 to |configured|
      invariant |routes| == |configured|
      invariant forall j :: i <= j < |routes| ==> routes[j] == configured[j]
      invariant forall j :: 0 <= j < i ==> IsRewritten(chats, targets, configured[j], routes[j])
    {
      var fault, rewritten := RewriteRoute(chats, routes[i], scope, targets);
      if fault.Some? {
        return Some(BadRoute(i, fault.value)), routes;
      }
      routes := routes[i := rewritten];
    }
    return None, routes;
  }

  method BuildFromChats(chats: Chats, multiBot: bool, sn: SenderConfig) returns (r: BuildResult)
    requires sn.chats != []
    ensures r.Built? ==> NoTargetFault(chats, multiBot, sn.chats) && IsSenderFor(chats, sn, r.sender)
    ensures r.Rejected? ==> IsFirstFault(chats, multiBot, sn, r.error)
  {
    assert [] + sn.chats == sn.chats;
    var fault, scope, targets := AddTargets(chats, multiBot, sn.chats, map[], [], []);
    if fault.Some? {
      return Rejected(BadChats(fault.value));
    }
    var error, routes := RewriteRoutes(chats, sn.routes, scope, sn.chats);
    if error.Some? {
      return Rejected(error.value);
    }
    return Built(Sender(scope, targets, routes));
  }

  lemma ConcatNext(routes: seq<seq<string>>, i: nat)
    requires i < |routes|
    ensures Concat(routes[..i + 1]) == Concat(routes[..i]) + routes[i]
  {
    assert routes[..i + 1][..i] == routes[..i];
  }

  method BuildFromRoutes(chats: Chats, multiBot: bool, sn: SenderConfig) returns (r: BuildResult)
    requires sn.chats == []
    ensures r.Built? ==> NoTargetFault(chats, multiBot, Concat(sn.routes)) && IsSenderFor(chats, sn, r.sender)
    ensures r.Rejected? ==> IsFirstFault(chats, multiBot, sn, r.error)
  {
    var fault: Option<Fault>;
    var scope: map<string, Target> := map[];
    var targets: seq<string> := [];
    for i := 0 to |sn.routes|
      invariant Collected(chats, multiBot, Concat(sn.routes[..i]), scope, targets)
    {
      fault, scope, targets := AddTargets(chats, multiBot, sn.routes[i], scope, targets, Concat(sn.routes[..i]));
      ConcatNext(sn.routes, i);
      if fault.Some? {
        ConcatFault(chats, multiBot, sn.routes, i + 1, fault.value);
        return Rejected(BadRoutes(fault.value));
      }
    }
    assert sn.routes[..|sn.routes|] == sn.routes;
    return Built(Sender(scope, targets, sn.routes));
  }

  // ---- when a sender is acceptable, said without any order ------------------------------------

  ghost predicate GoodTarget(chats: Chats, multiBot: bool, ref: string) {
    var resolved := ResolveChatRef(chats, ref);
    resolved.Resolved? && (multiBot ==> !IsUUID(ref) && resolved.bot != "")
  }

  /** Two references to the same chat. */
  ghost predicate SameChatRefs(chats: Chats, a: string, b: string) {
    var x, y := ResolveChatRef(chats, a), ResolveChatRef(chats, b);
    x.Resolved? && y.Resolved? && x.id == y.id
  }

  ghost predicate GoodTargets(chats: Chats, multiBot: bool, refs: seq<string>) {
    && (forall r :: r in refs ==> GoodTarget(chats, multiBot, r))
    && (forall r, s :: r in refs && s in refs && SameChatRefs(chats, r, s) ==> r == s)
  }

  /** A route chat stands for one of the targets and does not contradict its bot. */
  ghost predicate StandsFor(chats: Chats, target: string, ref: string) {
    && SameChatRefs(chats, target, ref)
    && !Target(target, ResolveChatRef(chats, target).bot).BotConflict(ref, ResolveChatRef(chats, ref).bot)
  }

  ghost predicate Acceptable(chats: Chats, multiBot: bool, sn: SenderConfig) {
    && GoodTargets(chats, multiBot, TargetRefs(sn))
    && (sn.chats != [] ==> forall i, ref :: 0 <= i < |sn.routes| && ref in sn.routes[i] ==>
          exists t :: t in sn.chats && StandsFor(chats, t, ref))
  }

  ghost predicate NoFault(chats: Chats, multiBot: bool, sn: SenderConfig) {
    && NoTargetFault(chats, multiBot, TargetRefs(sn))
    && (sn.chats != [] ==> forall i :: 0 <= i < |sn.routes| ==> NoRouteFault(chats, sn.chats, sn.routes[i]))
  }

  lemma TargetFaultMeaning(chats: Chats, multiBot: bool, before: seq<string>, ref: string)
    requires GoodTargets(chats, multiBot, before)
    ensures TargetFault(chats, multiBot, before, ref).None? <==>
            GoodTarget(chats, multiBot, ref) && forall r :: r in before && SameChatRefs(chats, r, ref) ==> r == ref
  {
    var resolved := ResolveChatRef(chats, ref);
    if resolved.Resolved? {
      ScopeMeaning(r => TargetKey(chats, r), before, resolved.id);
      if resolved.id in BuiltScope(chats, before) {
        var t := BuiltScope(chats, before)[resolved.id].target;
        assert t in before && SameChatRefs(chats, t, ref);
        assert forall r :: r in before && SameChatRefs(chats, r, ref) ==> SameChatRefs(chats, r, t);
      }
    }
  }

  lemma {:induction false} NoTargetFaultMeaning(chats: Chats, multiBot: bool, refs: seq<string>)
    ensures NoTargetFault(chats, multiBot, refs) <==> GoodTargets(chats, multiBot, refs)
  {
    if refs != [] {
      var n := |refs| - 1;
      var before, ref := refs[..n], refs[n];
      assert refs == before + [ref];
      NoTargetFaultAppend(chats, multiBot, before, ref);
      NoTargetFaultMeaning(chats, multiBot, before);
      GoodTargetsAppend(chats, multiBot, before, ref);
      if GoodTargets(chats, multiBot, before) {
        TargetFaultMeaning(chats, multiBot, before, ref);
      }
    }
  }

  lemma GoodTargetsAppend(chats: Chats, multiBot: bool, before: seq<string>, ref: string)
    ensures GoodTargets(chats, multiBot, before + [ref]) <==>
            && GoodTargets(chats, multiBot, before) && GoodTarget(chats, multiBot, ref)
            && forall r :: r in before && SameChatRefs(chats, r, ref) ==> r == ref
  {
    var refs := before + [ref];
    assert forall r :: r in refs <==> r in before || r == ref;
  }

  lemma RouteFaultMeaning(chats: Chats, multiBot: bool, targets: seq<string>, ref: string)
    requires GoodTargets(chats, multiBot, targets)
    ensures RouteFault(chats, targets, ref).None? <==> exists t :: t in targets && StandsFor(chats, t, ref)
  {
    var resolved := ResolveChatRef(chats, ref);
    if resolved.Resolved? {
      ScopeMeaning(r => TargetKey(chats, r), targets, resolved.id);
      if resolved.id in BuiltScope(chats, targets) {
        var t := BuiltScope(chats, targets)[resolved.id].target;
        assert t in targets && SameChatRefs(chats, t, ref);
      }
    }
  }

  lemma NoFaultMeaning(chats: Chats, multiBot: bool, sn: SenderConfig)
    ensures NoFault(chats, multiBot, sn) <==> Acceptable(chats, multiBot, sn)
  {
    NoTargetFaultMeaning(chats, multiBot, TargetRefs(sn));
    if GoodTargets(chats, multiBot, TargetRefs(sn)) && sn.chats != [] {
      forall ref
        ensures RouteFault(chats, sn.chats, ref).None? <==> exists t :: t in sn.chats && StandsFor(chats, t, ref)
      {
        RouteFaultMeaning(chats, multiBot, sn.chats, ref);
      }
      forall i | 0 <= i < |sn.routes|
        ensures NoRouteFault(chats, sn.chats, sn.routes[i]) <==>
                forall ref :: ref in sn.routes[i] ==> RouteFault(chats, sn.chats, ref).None?
      {}
    }
  }

  lemma {:induction false} RewrittenAt(chats: Chats, multiBot: bool, targets: seq<string>, refs: seq<string>, k: nat)
    requires GoodTargets(chats, multiBot, targets) && NoRouteFault(chats, targets, refs) && k < |refs|
    ensures var rewritten := Rewrite(chats, targets, refs);
            |rewritten| == |refs| && rewritten[k] in targets && StandsFor(chats, rewritten[k], refs[k])
  {
    var n := |refs| - 1;
    assert RouteFault(chats, targets, refs[n]).None?;
    assert NoRouteFault(chats, targets, refs[..n]);
    if n > 0 { RewrittenAt(chats, multiBot, targets, refs[..n], if k < n then k else 0); }
    if k == n { EntryStandsFor(chats, targets, refs[n]); }
  }

  lemma EntryStandsFor(chats: Chats, targets: seq<string>, ref: string)
    requires RouteFault(chats, targets, ref).None?
    ensures var t := BuiltScope(chats, targets)[ResolveChatRef(chats, ref).id].target;
            t in targets && StandsFor(chats, t, ref)
  {
    ScopeMeaning(r => TargetKey(chats, r), targets, ResolveChatRef(chats, ref).id);
  }

  /** In the sender that is built every route has as many chats as configured, and at each place the target
      that the configured chat stands for; without explicit targets that is the chat itself. */
  lemma RoutesStandForTheirChats(chats: Chats, multiBot: bool, sn: SenderConfig, sender: Sender, i: nat, k: nat)
    requires Acceptable(chats, multiBot, sn) && IsSenderFor(chats, sn, sender)
    requires i < |sn.routes| && k < |sn.routes[i]|
    ensures |sender.routes| == |sn.routes| && |sender.routes[i]| == |sn.routes[i]|
    ensures sender.routes[i][k] in TargetRefs(sn) && StandsFor(chats, sender.routes[i][k], sn.routes[i][k])
    ensures sn.chats == [] ==> sender.routes[i][k] == sn.routes[i][k]
  {
    NoFaultMeaning(chats, multiBot, sn);
    if sn.chats != [] {
      assert IsRewritten(chats, sn.chats, sn.routes[i], sender.routes[i]);
      RewrittenAt(chats, multiBot, sn.chats, sn.routes[i], k);
    } else {
      ConcatHas(sn.routes, i, sn.routes[i][k]);
      assert GoodTarget(chats, multiBot, sn.routes[i][k]);
    }
  }

  lemma {:induction false} ConcatHas(routes: seq<seq<string>>, i: nat, ref: string)
    requires i < |routes| && ref in routes[i]
    ensures ref in Concat(routes)
  {
    var n := |routes| - 1;
    if i < n { ConcatHas(routes[..n], i, ref); }
  }

  method BuildSender(chats: Chats, multiBot: bool, sn: SenderConfig) returns (r: BuildResult)
    ensures r.Built? <==> Acceptable(chats, multiBot, sn)
    ensures r.Built? ==> IsSenderFor(chats, sn, r.sender)
    ensures r.Rejected? ==> IsFirstFault(chats, multiBot, sn, r.error)
  {
    NoFaultMeaning(chats, multiBot, sn);
    if sn.chats != [] {
      r := BuildFromChats(chats, multiBot, sn);
    } else {
      r := BuildFromRoutes(chats, multiBot, sn);
    }
  }
}
