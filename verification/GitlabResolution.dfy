/** Chat ids that are secret references: exactly which senders some secrets make acceptable, and what the
    validator's silence is worth for them. */
module GitlabResolution {
  import opened ChatRefs
  import opened GitlabSender
  import opened GitlabValidation
  import opened GitlabAgreement
  import opened ChatSecrets
  import opened Wrappers

  /** Nothing reported that matters for the mode: no error, and in multi-bot mode no warning either. */
  ghost predicate Quiet(multiBot: bool, findings: seq<Finding>) {
    if multiBot then findings == [] else NoErrors(findings)
  }

  // ---- what silence says about the references ---------------------------------------------------

  ghost predicate SameDecidedChat(chats: Chats, a: string, b: string) {
    var x, y := Classify(chats, a), Classify(chats, b);
    x.Decided? && y.Decided? && x.id == y.id
  }

  ghost predicate QuietTarget(chats: Chats, multiBot: bool, ref: string) {
    !Classify(chats, ref).Unknown? && (multiBot ==> !IsUUID(ref) && ref in chats && chats[ref].bot != "")
  }

  ghost predicate QuietTargets(chats: Chats, multiBot: bool, refs: seq<string>) {
    && (forall r :: r in refs ==> QuietTarget(chats, multiBot, r))
    && (forall r, s :: r in refs && s in refs && SameDecidedChat(chats, r, s) ==> r == s)
  }

  lemma NextQuietTarget(chats: Chats, multiBot: bool, before: seq<string>, item: Item)
    requires QuietTargets(chats, multiBot, before) && TargetErrors(chats, before, item) == []
    requires multiBot ==> Warnings(chats, true, before, item) == []
    ensures QuietTargets(chats, multiBot, before + [item.ref])
  {
    var refs := before + [item.ref];
    assert forall r :: r in refs <==> r in before || r == item.ref;
    forall r | r in before && SameDecidedChat(chats, r, item.ref)
      ensures r == item.ref
    {
      var id := Classify(chats, item.ref).id;
      ScopeMeaning(r => DecidedKey(chats, r), before, id);
      var previous := DecidedScope(chats, before)[id].target;
      assert previous in before && SameDecidedChat(chats, previous, r);
    }
  }

  lemma {:induction false} QuietTargetFindings(chats: Chats, multiBotPossible: bool, multiBot: bool, items: seq<Item>)
    requires multiBot ==> multiBotPossible
    requires Quiet(multiBot, TargetFindings(chats, multiBotPossible, items))
    ensures QuietTargets(chats, multiBot, Refs(items))
  {
    if items != [] {
      var n := |items| - 1;
      var before, item := Refs(items[..n]), items[n];
      assert items == items[..n] + [item];
      RefsAppend(items[..n], item);
      var earlier, warned, errors := TargetFindings(chats, multiBotPossible, items[..n]),
        Warnings(chats, multiBotPossible, before, item), TargetErrors(chats, before, item);
      NoErrorsConcat(earlier, warned);
      NoErrorsConcat(earlier + warned, errors);
      TargetErrorsAreErrors(chats, before, item);
      QuietTargetFindings(chats, multiBotPossible, multiBot, items[..n]);
      NextQuietTarget(chats, multiBot, before, item);
    }
  }

  lemma QuietSender(chats: Chats, multiBotPossible: bool, multiBot: bool, sn: SenderConfig)
    requires multiBot ==> multiBotPossible
    requires Quiet(multiBot, Findings(chats, multiBotPossible, sn))
    ensures QuietTargets(chats, multiBot, TargetRefs(sn))
  {
    RouteItemsRefs(sn.routes);
    if sn.chats == [] {
      QuietTargetFindings(chats, multiBotPossible, multiBot, RouteItems(sn.routes));
    } else {
      ChatItemsRefs(sn.chats);
      NoErrorsConcat(TargetFindings(chats, multiBotPossible, ChatItems(sn.chats)),
                     RouteFindings(chats, sn.chats, RouteItems(sn.routes)));
      QuietTargetFindings(chats, multiBotPossible, multiBot, ChatItems(sn.chats));
    }
  }

  // ---- the condition ---------------------------------------------------------------------------

  /** The bot a reference is bound to; it does not depend on any secret. */
  function BotOf(chats: Chats, ref: string): string {
    if !IsUUID(ref) && ref in chats then chats[ref].bot else ""
  }

  /** The id of a reference as it is written. Equal ids are read to equal values. */
  function RawId(chats: Chats, ref: string): string {
    if IsUUID(ref) then ref else if ref in chats then chats[ref].id else ""
  }

  function RawIds(chats: Chats, refs: seq<string>): set<string> {
    set r | r in refs :: RawId(chats, r)
  }

  predicate Compatible(chats: Chats, target: string, ref: string) {
    !Target(target, BotOf(chats, target)).BotConflict(ref, BotOf(chats, ref))
  }

  /** `assign` gives every written id of a route chat one target, whose bot none of the chats with that id
      contradicts. The target with that very id is the one, if there is any; a known id may otherwise only be
      the value of a secret target, and no two known ids of the same. */
  ghost predicate Assigns(chats: Chats, targets: seq<string>, refs: seq<string>, assign: map<string, string>) {
    && assign.Keys == RawIds(chats, refs)
    && (forall x :: x in assign ==> assign[x] in targets)
    && (forall r :: r in refs ==> RawId(chats, r) in assign && Compatible(chats, assign[RawId(chats, r)], r))
    && (forall t :: t in targets && RawId(chats, t) in assign ==> assign[RawId(chats, t)] == t)
    && (forall x :: x in assign && !IsSecret(x) ==> RawId(chats, assign[x]) == x || IsSecret(RawId(chats, assign[x])))
    && (forall x, y ::
          (x in assign && y in assign && !IsSecret(x) && !IsSecret(y) && assign[x] == assign[y]) ==> x == y)
  }

  /** Every secret of the section can be read at all; no reference lacks an id; no two targets have the same;
      and the route chats can be assigned to the targets. */
  ghost predicate Coverable(chats: Chats, sn: SenderConfig) {
    var targets := TargetRefs(sn);
    && (forall a :: a in chats ==> IsReadable(chats[a].id))
    && (forall t :: t in targets ==> RawId(chats, t) != "")
    && (forall t, s :: t in targets && s in targets && RawId(chats, t) == RawId(chats, s) ==> t == s)
    && (sn.chats != [] ==>
          && (forall r :: r in Concat(sn.routes) ==> RawId(chats, r) != "")
          && exists assign :: Assigns(chats, sn.chats, Concat(sn.routes), assign))
  }

  /** The sender is accepted under these secrets. */
  ghost predicate AcceptedUnder(read: Read, chats: Chats, multiBot: bool, sn: SenderConfig) {
    Loads(read, chats) && Acceptable(Loaded(read, chats), multiBot, sn)
  }

  lemma LoadedIsResolution(read: Read, chats: Chats)
    requires Loads(read, chats)
    ensures IsResolution(chats, Loaded(read, chats))
  {
    forall a | a in chats && IsUUID(chats[a].id)
      ensures Loaded(read, chats)[a].id == chats[a].id
    {
      UuidIsNoSecret(chats[a].id);
    }
  }

  // ---- it is necessary -------------------------------------------------------------------------

  ghost predicate ResolvesTo(chats: Chats, ref: string, id: string) {
    ResolveChatRef(chats, ref).Resolved? && ResolveChatRef(chats, ref).id == id
  }

  /** What a reference resolves to is the value of its written id. */
  lemma LoadedValue(read: Read, chats: Chats, ref: string)
    requires Loads(read, chats) && ResolveChatRef(Loaded(read, chats), ref).Resolved?
    ensures var x := RawId(chats, ref);
            && x != "" && ResolveSecret(read, x).Some?
            && ResolveChatRef(Loaded(read, chats), ref) == Resolved(ResolveSecret(read, x).value, BotOf(chats, ref))
  {
    if IsUUID(ref) { UuidIsNoSecret(ref); }
  }

  ghost function TargetFor(resolved: Chats, targets: seq<string>, id: string): (t: string)
    requires exists t :: t in targets && ResolvesTo(resolved, t, id)
    ensures t in targets && ResolvesTo(resolved, t, id)
  {
    var t :| t in targets && ResolvesTo(resolved, t, id);
    t
  }

  /** Every route chat of an acceptable sender stands for a target. */
  lemma RouteStands(resolved: Chats, multiBot: bool, sn: SenderConfig, ref: string) returns (t: string)
    requires Acceptable(resolved, multiBot, sn) && sn.chats != [] && ref in Concat(sn.routes)
    ensures t in sn.chats && StandsFor(resolved, t, ref)
  {
    var i := ConcatMember(sn.routes, ref);
    t :| t in sn.chats && StandsFor(resolved, t, ref);
  }

  /** All targets a written id is read to are one, and every route chat with that id is compatible with it. */
  lemma TargetOfRoute(read: Read, chats: Chats, multiBot: bool, sn: SenderConfig, ref: string)
    requires AcceptedUnder(read, chats, multiBot, sn) && sn.chats != [] && ref in Concat(sn.routes)
    ensures var x := RawId(chats, ref);
            && x != "" && ResolveSecret(read, x).Some?
            && (exists t :: t in sn.chats && ResolvesTo(Loaded(read, chats), t, ResolveSecret(read, x).value))
            && forall t :: t in sn.chats && ResolvesTo(Loaded(read, chats), t, ResolveSecret(read, x).value) ==>
                 Compatible(chats, t, ref)
  {
    var resolved := Loaded(read, chats);
    var t := RouteStands(resolved, multiBot, sn, ref);
    LoadedValue(read, chats, ref);
    LoadedValue(read, chats, t);
    var value := ResolveSecret(read, RawId(chats, ref)).value;
    assert ResolvesTo(resolved, t, value) && Compatible(chats, t, ref);
    forall s | s in sn.chats && ResolvesTo(resolved, s, value)
      ensures s == t
    {
      assert SameChatRefs(resolved, s, t);
    }
  }

  ghost predicate HasTargetFor(read: Read, chats: Chats, targets: seq<string>, x: string) {
    && Loads(read, chats) && ResolveSecret(read, x).Some?
    && exists t :: t in targets && ResolvesTo(Loaded(read, chats), t, ResolveSecret(read, x).value)
  }

  ghost function Assignment(read: Read, chats: Chats, targets: seq<string>, ids: set<string>): map<string, string>
    requires Loads(read, chats) && forall x :: x in ids ==> HasTargetFor(read, chats, targets, x)
  {
    map x | x in ids ::
      assert HasTargetFor(read, chats, targets, x);
      TargetFor(Loaded(read, chats), targets, ResolveSecret(read, x).value)
  }

  lemma TargetIsUnique(read: Read, chats: Chats, multiBot: bool, targets: seq<string>, t: string, s: string)
    requires Loads(read, chats) && GoodTargets(Loaded(read, chats), multiBot, targets) && t in targets && s in targets
    requires exists id :: ResolvesTo(Loaded(read, chats), t, id) && ResolvesTo(Loaded(read, chats), s, id)
    ensures t == s
  {
    assert SameChatRefs(Loaded(read, chats), t, s);
  }

  lemma AssignmentFound(read: Read, chats: Chats, multiBot: bool, sn: SenderConfig)
    returns (assign: map<string, string>)
    requires AcceptedUnder(read, chats, multiBot, sn) && sn.chats != []
    ensures Assigns(chats, sn.chats, Concat(sn.routes), assign)
  {
    var resolved, targets, refs := Loaded(read, chats), sn.chats, Concat(sn.routes);
    var ids := RawIds(chats, refs);
    forall r | r in refs
      ensures HasTargetFor(read, chats, targets, RawId(chats, r))
    {
      TargetOfRoute(read, chats, multiBot, sn, r);
    }
    assign := Assignment(read, chats, targets, ids);
    forall r | r in refs
      ensures RawId(chats, r) in assign && Compatible(chats, assign[RawId(chats, r)], r)
    {
      TargetOfRoute(read, chats, multiBot, sn, r);
    }
    forall t | t in targets
      ensures ResolvesTo(resolved, t, ResolveChatRef(resolved, t).id) && ResolveSecret(read, RawId(chats, t)).Some?
      ensures ResolveChatRef(resolved, t).id == ResolveSecret(read, RawId(chats, t)).value
    {
      assert GoodTarget(resolved, multiBot, t);
      LoadedValue(read, chats, t);
    }
    forall t | t in targets && RawId(chats, t) in assign
      ensures assign[RawId(chats, t)] == t
    {
      TargetIsUnique(read, chats, multiBot, targets, assign[RawId(chats, t)], t);
    }
  }

  lemma AcceptedIsCoverable(read: Read, chats: Chats, multiBot: bool, sn: SenderConfig)
    requires AcceptedUnder(read, chats, multiBot, sn)
    ensures Coverable(chats, sn)
  {
    var resolved, targets := Loaded(read, chats), TargetRefs(sn);
    forall t | t in targets
      ensures RawId(chats, t) != "" && ResolveSecret(read, RawId(chats, t)).Some?
      ensures ResolvesTo(resolved, t, ResolveSecret(read, RawId(chats, t)).value)
    {
      assert GoodTarget(resolved, multiBot, t);
      LoadedValue(read, chats, t);
    }
    forall t, s | t in targets && s in targets && RawId(chats, t) == RawId(chats, s)
      ensures t == s
    {
      TargetIsUnique(read, chats, multiBot, targets, t, s);
    }
    if sn.chats != [] {
      forall r | r in Concat(sn.routes)
        ensures RawId(chats, r) != ""
      {
        TargetOfRoute(read, chats, multiBot, sn, r);
      }
      var assign := AssignmentFound(read, chats, multiBot, sn);
    }
    SectionIsReadable(read, chats);
  }

  lemma SectionIsReadable(read: Read, chats: Chats)
    requires Loads(read, chats)
    ensures forall a :: a in chats ==> IsReadable(chats[a].id)
  {
    forall a | a in chats
      ensures IsReadable(chats[a].id)
    {
      if chats[a].id != "" { assert ResolveSecret(read, chats[a].id).Some?; }
    }
  }

  // ---- it is sufficient: the secrets ---------------------------------------------------------------

  ghost predicate TakesOn(assign: map<string, string>, t: string, x: string) {
    x in assign && !IsSecret(x) && assign[x] == t
  }

  /** The id a target gets: its own when it is known, the known one it has to cover, or else its reference as
      it is written, which no known id is equal to. */
  ghost function TargetId(chats: Chats, assign: map<string, string>, t: string): (id: string)
    ensures !IsSecret(RawId(chats, t)) ==> id == RawId(chats, t)
    ensures IsSecret(RawId(chats, t)) ==> id == RawId(chats, t) || TakesOn(assign, t, id)
    ensures IsSecret(RawId(chats, t)) && id == RawId(chats, t) ==> forall x :: !TakesOn(assign, t, x)
  {
    if IsSecret(RawId(chats, t)) && exists x :: TakesOn(assign, t, x) then
      var x :| TakesOn(assign, t, x);
      x
    else
      RawId(chats, t)
  }

  ghost predicate IsTargetId(chats: Chats, targets: seq<string>, x: string, t: string) {
    t in targets && RawId(chats, t) == x
  }

  ghost function ValueOf(chats: Chats, targets: seq<string>, assign: map<string, string>, x: string): string {
    if !IsSecret(x) then x
    else if exists t :: IsTargetId(chats, targets, x, t) then
      var t :| IsTargetId(chats, targets, x, t);
      TargetId(chats, assign, t)
    else if x in assign then TargetId(chats, assign, assign[x])
    else x
  }

  ghost function Secrets(chats: Chats, targets: seq<string>, assign: map<string, string>): Read {
    x => Some(ValueOf(chats, targets, assign, x))
  }

  /** What the construction starts from. */
  ghost predicate Prepared(chats: Chats, targets: seq<string>, refs: seq<string>, assign: map<string, string>) {
    && (forall a :: a in chats ==> IsReadable(chats[a].id))
    && (forall t :: t in targets ==> RawId(chats, t) != "")
    && (forall t, s :: t in targets && s in targets && RawId(chats, t) == RawId(chats, s) ==> t == s)
    && (forall r :: r in refs ==> RawId(chats, r) != "")
    && Assigns(chats, targets, refs, assign)
  }

  lemma TargetIdNotEmpty(chats: Chats, targets: seq<string>, refs: seq<string>, assign: map<string, string>, t: string)
    requires Prepared(chats, targets, refs, assign) && t in targets
    ensures TargetId(chats, assign, t) != ""
  {
    var id := TargetId(chats, assign, t);
    if TakesOn(assign, t, id) { assert id in RawIds(chats, refs); }
  }

  lemma TargetIdsDiffer(chats: Chats, targets: seq<string>, refs: seq<string>, assign: map<string, string>,
                        t: string, s: string)
    requires Prepared(chats, targets, refs, assign) && t in targets && s in targets
    requires TargetId(chats, assign, t) == TargetId(chats, assign, s)
    ensures t == s
  {}

  lemma ValueOfTarget(chats: Chats, targets: seq<string>, refs: seq<string>, assign: map<string, string>, t: string)
    requires Prepared(chats, targets, refs, assign) && t in targets
    ensures ValueOf(chats, targets, assign, RawId(chats, t)) == TargetId(chats, assign, t)
  {
    assert IsTargetId(chats, targets, RawId(chats, t), t);
  }

  lemma ValueOfRoute(chats: Chats, targets: seq<string>, refs: seq<string>, assign: map<string, string>, x: string)
    requires Prepared(chats, targets, refs, assign) && x in assign
    ensures ValueOf(chats, targets, assign, x) == TargetId(chats, assign, assign[x])
  {
    if !IsSecret(x) {
      assert TakesOn(assign, assign[x], x);
    } else if t :| IsTargetId(chats, targets, x, t) {
      assert assign[x] == t;
    }
  }

  lemma ValueNotEmpty(chats: Chats, targets: seq<string>, refs: seq<string>, assign: map<string, string>, x: string)
    requires Prepared(chats, targets, refs, assign) && x != ""
    ensures ValueOf(chats, targets, assign, x) != ""
  {
    forall t | t in targets
      ensures TargetId(chats, assign, t) != ""
    {
      TargetIdNotEmpty(chats, targets, refs, assign, t);
    }
  }

  ghost predicate HasValue(chats: Chats, targets: seq<string>, assign: map<string, string>, x: string) {
    ResolveSecret(Secrets(chats, targets, assign), x) == Some(ValueOf(chats, targets, assign, x))
  }

  lemma SecretsLoad(chats: Chats, targets: seq<string>, refs: seq<string>, assign: map<string, string>)
    requires Prepared(chats, targets, refs, assign)
    ensures Loads(Secrets(chats, targets, assign), chats)
    ensures forall a :: a in chats && chats[a].id != "" ==> HasValue(chats, targets, assign, chats[a].id)
  {
    forall a | a in chats && chats[a].id != ""
      ensures HasValue(chats, targets, assign, chats[a].id)
    {
      ValueNotEmpty(chats, targets, refs, assign, chats[a].id);
    }
  }

  lemma RefResolves(chats: Chats, targets: seq<string>, refs: seq<string>, assign: map<string, string>, ref: string)
    requires Prepared(chats, targets, refs, assign) && RawId(chats, ref) != ""
    ensures Loads(Secrets(chats, targets, assign), chats)
    ensures ResolveChatRef(Loaded(Secrets(chats, targets, assign), chats), ref)
         == Resolved(ValueOf(chats, targets, assign, RawId(chats, ref)), BotOf(chats, ref))
  {
    SecretsLoad(chats, targets, refs, assign);
    ValueNotEmpty(chats, targets, refs, assign, RawId(chats, ref));
    if IsUUID(ref) { UuidIsNoSecret(ref); }
  }

  lemma TargetsAreGood(chats: Chats, multiBot: bool, targets: seq<string>, refs: seq<string>,
                       assign: map<string, string>)
    requires Prepared(chats, targets, refs, assign) && QuietTargets(chats, multiBot, targets)
    ensures Loads(Secrets(chats, targets, assign), chats)
    ensures GoodTargets(Loaded(Secrets(chats, targets, assign), chats), multiBot, targets)
  {
    SecretsLoad(chats, targets, refs, assign);
    var resolved := Loaded(Secrets(chats, targets, assign), chats);
    forall t | t in targets
      ensures GoodTarget(resolved, multiBot, t)
    {
      RefResolves(chats, targets, refs, assign, t);
      assert QuietTarget(chats, multiBot, t);
    }
    forall t, s | t in targets && s in targets && SameChatRefs(resolved, t, s)
      ensures t == s
    {
      RefResolves(chats, targets, refs, assign, t);
      RefResolves(chats, targets, refs, assign, s);
      ValueOfTarget(chats, targets, refs, assign, t);
      ValueOfTarget(chats, targets, refs, assign, s);
      TargetIdsDiffer(chats, targets, refs, assign, t, s);
    }
  }

  lemma RefStands(chats: Chats, targets: seq<string>, refs: seq<string>, assign: map<string, string>, ref: string)
    requires Prepared(chats, targets, refs, assign) && ref in refs
    ensures Loads(Secrets(chats, targets, assign), chats)
    ensures exists t :: t in targets && StandsFor(Loaded(Secrets(chats, targets, assign), chats), t, ref)
  {
    var t := assign[RawId(chats, ref)];
    RefResolves(chats, targets, refs, assign, ref);
    RefResolves(chats, targets, refs, assign, t);
    ValueOfTarget(chats, targets, refs, assign, t);
    ValueOfRoute(chats, targets, refs, assign, RawId(chats, ref));
    assert StandsFor(Loaded(Secrets(chats, targets, assign), chats), t, ref);
  }

  lemma CoverableIsAccepted(chats: Chats, multiBotPossible: bool, multiBot: bool, sn: SenderConfig) returns (read: Read)
    requires multiBot ==> multiBotPossible
    requires Quiet(multiBot, Findings(chats, multiBotPossible, sn)) && Coverable(chats, sn)
    ensures AcceptedUnder(read, chats, multiBot, sn)
  {
    QuietSender(chats, multiBotPossible, multiBot, sn);
    var targets := TargetRefs(sn);
    if sn.chats == [] {
      read := Secrets(chats, targets, map[]);
      assert Prepared(chats, targets, [], map[]);
      TargetsAreGood(chats, multiBot, targets, [], map[]);
    } else {
      var refs := Concat(sn.routes);
      var assign :| Assigns(chats, targets, refs, assign);
      read := Secrets(chats, targets, assign);
      TargetsAreGood(chats, multiBot, targets, refs, assign);
      forall i, ref | 0 <= i < |sn.routes| && ref in sn.routes[i]
        ensures exists t :: t in sn.chats && StandsFor(Loaded(read, chats), t, ref)
      {
        ConcatHas(sn.routes, i, ref);
        RefStands(chats, targets, refs, assign, ref);
      }
    }
  }

  // ---- the exact statement ---------------------------------------------------------------------

  lemma {:induction false} WarnedTargetsAreRight(chats: Chats, resolved: Chats, items: seq<Item>, refs: seq<string>)
    requires IsResolution(chats, resolved)
    requires TargetFindings(chats, true, items) != [] && NoErrors(TargetFindings(chats, true, items))
    requires forall r :: r in Refs(items) ==> r in refs
    ensures !GoodTargets(resolved, true, refs)
  {
    var n := |items| - 1;
    var before, item := Refs(items[..n]), items[n];
    assert items == items[..n] + [item];
    RefsAppend(items[..n], item);
    assert Refs(items)[n] == item.ref && forall r :: r in before ==> r in Refs(items);
    var earlier, warned, errors := TargetFindings(chats, true, items[..n]), Warnings(chats, true, before, item),
      TargetErrors(chats, before, item);
    NoErrorsConcat(earlier, warned);
    NoErrorsConcat(earlier + warned, errors);
    TargetErrorsAreErrors(chats, before, item);
    if earlier != [] {
      WarnedTargetsAreRight(chats, resolved, items[..n], refs);
    } else {
      assert !GoodTarget(resolved, true, item.ref);
    }
  }

  /** A multi-bot warning, like an error, is right whatever the secrets turn out to be: in multi-bot mode
      the builder rejects every sender something is reported for. */
  lemma WarningsAreSound(chats: Chats, resolved: Chats, sn: SenderConfig)
    requires IsResolution(chats, resolved) && Findings(chats, true, sn) != []
    ensures !Acceptable(resolved, true, sn)
  {
    if !NoErrors(Findings(chats, true, sn)) {
      ErrorsAreSound(chats, resolved, true, true, sn);
    } else if sn.chats == [] {
      RouteItemsRefs(sn.routes);
      WarnedTargetsAreRight(chats, resolved, RouteItems(sn.routes), TargetRefs(sn));
    } else {
      var routeItems := RouteItems(sn.routes);
      ChatItemsRefs(sn.chats);
      NoErrorsConcat(TargetFindings(chats, true, ChatItems(sn.chats)), RouteFindings(chats, sn.chats, routeItems));
      OnlyErrorsForRoutes(chats, sn.chats, routeItems);
      WarnedTargetsAreRight(chats, resolved, ChatItems(sn.chats), sn.chats);
    }
  }

  lemma {:induction false} OnlyErrorsForRoutes(chats: Chats, targets: seq<string>, items: seq<Item>)
    requires NoErrors(RouteFindings(chats, targets, items))
    ensures RouteFindings(chats, targets, items) == []
  {
    if items != [] {
      var n := |items| - 1;
      var errors := RouteErrors(chats, targets, items[n]);
      NoErrorsConcat(RouteFindings(chats, targets, items[..n]), errors);
      RouteErrorsAreErrors(chats, targets, items[n]);
      OnlyErrorsForRoutes(chats, targets, items[..n]);
    }
  }

  /** Exactly when there are secrets under which a sender is accepted: the validator is silent, and the
      sender is coverable. In single-bot mode warnings do not count, in multi-bot mode they do. */
  lemma AcceptableForSomeSecrets(chats: Chats, multiBotPossible: bool, multiBot: bool, sn: SenderConfig)
    requires multiBot ==> multiBotPossible
    ensures (exists read: Read :: AcceptedUnder(read, chats, multiBot, sn)) <==>
            Quiet(multiBot, Findings(chats, multiBotPossible, sn)) && Coverable(chats, sn)
  {
    var findings := Findings(chats, multiBotPossible, sn);
    if read: Read :| AcceptedUnder(read, chats, multiBot, sn) {
      AcceptedIsCoverable(read, chats, multiBot, sn);
      LoadedIsResolution(read, chats);
      if !Quiet(multiBot, findings) {
        if multiBot {
          WarningsAreSound(chats, Loaded(read, chats), sn);
        } else {
          ErrorsAreSound(chats, Loaded(read, chats), multiBotPossible, false, sn);
        }
      }
    }
    if Quiet(multiBot, findings) && Coverable(chats, sn) {
      var read := CoverableIsAccepted(chats, multiBotPossible, multiBot, sn);
    }
  }

  /** A sender without chats of its own: silence means that it is accepted under some secrets exactly when
      every secret of the section can be read, no reference lacks an id, and no two have the same. */
  lemma RoutesOnlyForSomeSecrets(chats: Chats, multiBotPossible: bool, sn: SenderConfig)
    requires sn.chats == [] && NoErrors(Findings(chats, multiBotPossible, sn))
    ensures (exists read: Read :: AcceptedUnder(read, chats, false, sn)) <==>
            && (forall a :: a in chats ==> IsReadable(chats[a].id))
            && (forall r :: r in TargetRefs(sn) ==> RawId(chats, r) != "")
            && forall r, s :: r in TargetRefs(sn) && s in TargetRefs(sn) && RawId(chats, r) == RawId(chats, s) ==>
                 r == s
  {
    AcceptableForSomeSecrets(chats, multiBotPossible, false, sn);
  }

  // ---- silence alone does not suffice ------------------------------------------------------------

  /** A secret target whose routes name two different chats: nothing is reported, and no secret helps, as
      one target cannot stand for two chats. */
  lemma OneSecretForTwoChats(chats: Chats, target: string, first: string, second: string)
    requires Classify(chats, target).Undecidable? && IsUUID(first) && IsUUID(second) && first != second
    ensures var sn := SenderConfig([target], [[first], [second]]);
            && Findings(chats, false, sn) == []
            && forall resolved: Chats :: IsResolution(chats, resolved) ==> !Acceptable(resolved, false, sn)
  {
    NothingFound(chats, target, first, second);
    forall resolved: Chats | IsResolution(chats, resolved)
      ensures !Acceptable(resolved, false, SenderConfig([target], [[first], [second]]))
    {
      OneTargetTwoChats(resolved, target, first, second);
    }
  }

  /** Two targets with one secret reference: nothing is reported either, and both are always the same chat. */
  lemma OneSecretForTwoTargets(chats: Chats, a: string, b: string)
    requires Classify(chats, a).Undecidable? && Classify(chats, b).Undecidable? && a != b
    requires RawId(chats, a) == RawId(chats, b)
    ensures var sn := SenderConfig([a, b], []);
            Findings(chats, false, sn) == [] && forall read: Read :: !AcceptedUnder(read, chats, false, sn)
  {
    var sn := SenderConfig([a, b], []);
    var x, y := Item(a, ChatPath(0)), Item(b, ChatPath(1));
    assert ChatItems(sn.chats) == [] + [x] + [y];
    TargetFindingsAppend(chats, false, [], x);
    TargetFindingsAppend(chats, false, [] + [x], y);
    assert !Coverable(chats, sn) by {
      assert a in TargetRefs(sn) && b in TargetRefs(sn);
    }
    AcceptableForSomeSecrets(chats, false, false, sn);
  }

  lemma OneTargetTwoChats(resolved: Chats, target: string, first: string, second: string)
    requires IsUUID(first) && IsUUID(second) && first != second
    ensures !Acceptable(resolved, false, SenderConfig([target], [[first], [second]]))
  {
    var sn := SenderConfig([target], [[first], [second]]);
    assert first in sn.routes[0] && second in sn.routes[1];
    assert !(StandsFor(resolved, target, first) && StandsFor(resolved, target, second));
  }

  lemma NothingFound(chats: Chats, target: string, first: string, second: string)
    requires IsUUID(first) && IsUUID(second) && Classify(chats, target).Undecidable?
    ensures Findings(chats, false, SenderConfig([target], [[first], [second]])) == []
  {
    var sn := SenderConfig([target], [[first], [second]]);
    var item, i1, i2 := Item(target, ChatPath(0)), Item(first, RoutePath(0)), Item(second, RoutePath(1));
    assert ChatItems(sn.chats) == [] + [item];
    TargetFindingsAppend(chats, false, [], item);
    TwoRoutes(first, second);
    RouteFindingsAppend(chats, sn.chats, [], i1);
    RouteFindingsAppend(chats, sn.chats, [] + [i1], i2);
    UndecidedTarget(chats, target, i1);
    UndecidedTarget(chats, target, i2);
  }

  lemma TwoRoutes(first: string, second: string)
    ensures RouteItems([[first], [second]]) == [] + [Item(first, RoutePath(0))] + [Item(second, RoutePath(1))]
  {
    var routes := [[first], [second]];
    RouteItemsNext(routes, 0);
    RouteItemsNext(routes, 1);
    assert routes[..2] == routes && routes[..0] == [];
  }

  /** With only an undecidable target, a raw UUID in a route is not reported. */
  lemma UndecidedTarget(chats: Chats, target: string, item: Item)
    requires Classify(chats, target) == Undecidable && IsUUID(item.ref)
    ensures RouteErrors(chats, [target], item) == []
  {
    EmptyScope(chats, target);
  }

  lemma EmptyScope(chats: Chats, target: string)
    requires Classify(chats, target).Undecidable?
    ensures DecidedScope(chats, [target]) == map[] && !AllDecided(chats, [target])
  {
    ScopeAppend(r => DecidedKey(chats, r), [], target);
    assert [] + [target] == [target] && target in [target];
  }

  function UuidOf(digit: char): string {
    seq(36, i => if i in {8, 13, 18, 23} then '-' else digit)
  }

  /** Such a section and such chats exist. */
  lemma SilenceIsNotAcceptance()
    ensures exists chats: Chats, sn ::
              && NoErrors(Findings(chats, false, sn))
              && forall resolved: Chats :: IsResolution(chats, resolved) ==> !Acceptable(resolved, false, sn)
  {
    var first, second := UuidOf('1'), UuidOf('2');
    assert first[0] != second[0];
    var chats: Chats := map["ops" := ChatConfig("env:OPS_CHAT", "", false)];
    OneSecretForTwoChats(chats, "ops", first, second);
    var sn := SenderConfig(["ops"], [[first], [second]]);
    assert NoErrors(Findings(chats, false, sn));
  }
}
