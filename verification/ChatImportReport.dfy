/** What the report of an import says of the chats section: every line of it is true of the section the
    run started from, the section it leaves and the lists of the bots. */
module ChatImportReport {
  import opened ChatRefs
  import opened ChatAliases
  import opened ChatImport
  import opened ChatImportProperties

  /** What stands under the alias of an added chat: its id, the default flag the alias had before, and the bot it
      was imported for; when a single run names none, an overwritten alias keeps the bot it had. */
  function EntryFor(cfg: Settings, before: Chats, item: Added): ChatConfig {
    if item.alias !in before then ChatConfig(item.id, item.bot, false)
    else ChatConfig(item.id, if cfg.single && item.bot == "" then before[item.alias].bot else item.bot,
                    before[item.alias].isDefault)
  }

  ghost predicate SameUnder(before: Chats, after: Chats, alias: string) {
    (alias in after <==> alias in before) && (alias in before ==> after[alias] == before[alias])
  }

  ghost predicate AddedAt(st: Import, k: int, alias: string) {
    0 <= k < |st.added| && st.added[k].alias == alias
  }

  /** The line is true: its alias was free, or overwriting was asked for, and holds what it should. */
  ghost predicate LineHolds(cfg: Settings, before: Chats, st: Import, k: nat)
    requires k < |st.added|
  {
    var item := st.added[k];
    && item.alias in st.generated && item.alias in st.chats && st.chats[item.alias] == EntryFor(cfg, before, item)
    && (item.alias in before ==> cfg.overwrite && !cfg.skipExisting)
  }

  /** The section differs from the one before exactly by what the report lists as added. */
  ghost predicate Accounted(cfg: Settings, before: Chats, st: Import) {
    && (forall a :: a !in st.generated ==> SameUnder(before, st.chats, a))
    && (forall a :: a in st.generated ==> exists k :: AddedAt(st, k, a))
    && (forall k :: 0 <= k < |st.added| ==> LineHolds(cfg, before, st, k))
    && (forall i, j :: 0 <= i < j < |st.added| ==> st.added[i].alias != st.added[j].alias)
  }

  lemma PutAccounted(cfg: Settings, before: Chats, st: Import, src: Source, alias: string, entry: ChatConfig,
                     index: map<string, string>)
    requires Accounted(cfg, before, st) && alias !in st.generated
    requires entry == EntryFor(cfg, before, Added(src.bot, alias, entry.id))
    requires alias in before ==> cfg.overwrite && !cfg.skipExisting
    ensures Accounted(cfg, before, Put(st, src, alias, entry, index))
  {
    var st' := Put(st, src, alias, entry, index);
    var n := |st.added|;
    forall k | 0 <= k < |st'.added|
      ensures LineHolds(cfg, before, st', k) && (k < n ==> st.added[k].alias != alias)
    {
      if k < n { assert LineHolds(cfg, before, st, k); }
    }
    forall a | a in st'.generated
      ensures exists k :: AddedAt(st', k, a)
    {
      if a == alias {
        assert AddedAt(st', n, a);
      } else {
        var k :| AddedAt(st, k, a);
        assert AddedAt(st', k, a);
      }
    }
    forall a | a !in st'.generated
      ensures SameUnder(before, st'.chats, a)
    {
      assert SameUnder(before, st.chats, a);
    }
  }

  lemma StepAccounted(cfg: Settings, before: Chats, src: Source, st: Import, chat: ChatInfo)
    requires Accounted(cfg, before, st) && ImportOne(cfg, src, st, chat).Goes?
    ensures Accounted(cfg, before, ImportOne(cfg, src, st, chat).state)
  {
    var st' := ImportOne(cfg, src, st, chat).state;
    if st'.added == st.added {
      SameAccounted(cfg, before, st, st');
    } else {
      var alias := FreeAlias(Base(cfg, src, chat), st.generated);
      assert SameUnder(before, st.chats, alias);
      if alias !in st.chats {
        PutAccounted(cfg, before, st, src, alias, ChatConfig(chat.id, src.bot, false), st.idIndex);
      } else {
        var old' := st.chats[alias];
        var bot := if cfg.single && src.bot == "" then old'.bot else src.bot;
        PutAccounted(cfg, before, st, src, alias, old'.(id := chat.id, bot := bot), st.idIndex - {old'.id});
      }
    }
  }

  lemma SameAccounted(cfg: Settings, before: Chats, st: Import, st': Import)
    requires Accounted(cfg, before, st)
    requires st'.added == st.added && st'.generated == st.generated && st'.chats == st.chats
    ensures Accounted(cfg, before, st')
  {
    forall k | 0 <= k < |st'.added|
      ensures LineHolds(cfg, before, st', k)
    {
      assert LineHolds(cfg, before, st, k);
    }
    forall a | a in st'.generated
      ensures exists k :: AddedAt(st', k, a)
    {
      var k :| AddedAt(st, k, a);
      assert AddedAt(st', k, a);
    }
  }

  // ---- where the lines come from ---------------------------------------------------------------------

  /** The chat is on the list of that bot. */
  ghost predicate Offers(bots: seq<BotRun>, b: int, chat: ChatInfo) {
    0 <= b < |bots| && bots[b].listing.Listed? && chat in bots[b].listing.chats
  }

  /** The line is about a chat some bot listed, under its base name or one of the numbered ones. */
  ghost predicate AddedFrom(cfg: Settings, bots: seq<BotRun>, item: Added) {
    exists b, chat :: Offers(bots, b, chat) && AddedFor(cfg, bots[b].source, chat, item)
  }

  ghost predicate AddedFor(cfg: Settings, src: Source, chat: ChatInfo, item: Added) {
    && item.bot == src.bot && item.id == chat.id
    && (item.alias == Base(cfg, src, chat) || exists n :: n >= 2 && item.alias == Candidate(Base(cfg, src, chat), n))
  }

  ghost predicate SkippedFrom(bots: seq<BotRun>, why: Skipped) {
    match why
    case BotFailed(bot, reason) =>
      exists b :: 0 <= b < |bots| && bots[b].listing == NotListed(reason) && bots[b].source.bot == bot
    case _ => exists b, chat :: Offers(bots, b, chat) && bots[b].source.bot == why.bot && chat.id == why.id
  }

  ghost predicate ReportFrom(cfg: Settings, bots: seq<BotRun>, st: Import) {
    && (forall item :: item in st.added ==> AddedFrom(cfg, bots, item))
    && (forall why :: why in st.skipped ==> SkippedFrom(bots, why))
  }

  /** What one step adds to the report: exactly one line, about its own chat. */
  lemma StepReports(cfg: Settings, src: Source, st: Import, chat: ChatInfo)
    requires ImportOne(cfg, src, st, chat).Goes?
    ensures var st' := ImportOne(cfg, src, st, chat).state;
            || (st'.added == st.added && |st'.skipped| == |st.skipped| + 1 && st.skipped < st'.skipped
                && !st'.skipped[|st.skipped|].BotFailed?
                && st'.skipped[|st.skipped|].bot == src.bot && st'.skipped[|st.skipped|].id == chat.id)
            || (st'.skipped == st.skipped && |st'.added| == |st.added| + 1 && st.added < st'.added
                && AddedFor(cfg, src, chat, st'.added[|st.added|]))
  {
    var alias := FreeAlias(Base(cfg, src, chat), st.generated);
    assert IsFirstFree(Base(cfg, src, chat), st.generated, alias);
  }

  lemma StepReportsFrom(cfg: Settings, bots: seq<BotRun>, b: nat, st: Import, chat: ChatInfo)
    requires ReportFrom(cfg, bots, st) && Offers(bots, b, chat) && ImportOne(cfg, bots[b].source, st, chat).Goes?
    ensures ReportFrom(cfg, bots, ImportOne(cfg, bots[b].source, st, chat).state)
  {
    var st' := ImportOne(cfg, bots[b].source, st, chat).state;
    StepReports(cfg, bots[b].source, st, chat);
    if st'.added == st.added {
      var why := st'.skipped[|st.skipped|];
      assert st'.skipped == st.skipped + [why] && SkippedFrom(bots, why);
    } else {
      var item := st'.added[|st.added|];
      assert st'.added == st.added + [item] && AddedFrom(cfg, bots, item);
    }
  }

  lemma {:induction false} ListReports(cfg: Settings, before: Chats, bots: seq<BotRun>, b: nat, st: Import, n: nat)
    requires b < |bots| && bots[b].listing.Listed? && n <= |bots[b].listing.chats|
    requires Accounted(cfg, before, st) && ReportFrom(cfg, bots, st)
    requires ImportList(cfg, bots[b].source, st, bots[b].listing.chats[..n]).Goes?
    ensures var st' := ImportList(cfg, bots[b].source, st, bots[b].listing.chats[..n]).state;
            Accounted(cfg, before, st') && ReportFrom(cfg, bots, st')
  {
    if n > 0 {
      var list := bots[b].listing.chats;
      assert list[..n][..n - 1] == list[..n - 1];
      ListReports(cfg, before, bots, b, st, n - 1);
      var mid := ImportList(cfg, bots[b].source, st, list[..n - 1]).state;
      StepAccounted(cfg, before, bots[b].source, mid, list[n - 1]);
      StepReportsFrom(cfg, bots, b, mid, list[n - 1]);
    }
  }

  lemma FailureReports(cfg: Settings, before: Chats, bots: seq<BotRun>, b: nat, st: Import)
    requires b < |bots| && bots[b].listing.NotListed?
    requires Accounted(cfg, before, st) && ReportFrom(cfg, bots, st)
    ensures ImportBot(cfg, st, bots[b]).Goes?
    ensures var st' := ImportBot(cfg, st, bots[b]).state; Accounted(cfg, before, st') && ReportFrom(cfg, bots, st')
  {
    var st', why := ImportBot(cfg, st, bots[b]).state, BotFailed(bots[b].source.bot, bots[b].listing.reason);
    SameAccounted(cfg, before, st, st');
    assert st'.skipped == st.skipped + [why] && SkippedFrom(bots, why);
  }

  lemma {:induction false} BotsReport(cfg: Settings, before: Chats, bots: seq<BotRun>, st: Import, n: nat)
    requires n <= |bots| && Accounted(cfg, before, st) && ReportFrom(cfg, bots, st)
    requires ImportBots(cfg, st, bots[..n]).Goes?
    ensures var st' := ImportBots(cfg, st, bots[..n]).state; Accounted(cfg, before, st') && ReportFrom(cfg, bots, st')
  {
    if n > 0 {
      assert bots[..n][..n - 1] == bots[..n - 1];
      BotsReport(cfg, before, bots, st, n - 1);
      var mid := ImportBots(cfg, st, bots[..n - 1]).state;
      match bots[n - 1].listing {
        case NotListed(_) => FailureReports(cfg, before, bots, n - 1, mid);
        case Listed(list) =>
          assert list[..|list|] == list;
          ListReports(cfg, before, bots, n - 1, mid, |list|);
      }
    }
  }

  /** A whole run, from any section and in any mode: the section it leaves differs from the one before exactly
      under the aliases reported as added, each of them reported once and for a chat some bot listed; under such
      an alias stands that chat with that bot, or with the bot kept from an overwritten alias. */
  lemma ReportIsTrue(cfg: Settings, chats: Chats, index: map<string, string>, bots: seq<BotRun>)
    requires ImportBots(cfg, Start(chats, index), bots).Goes?
    ensures var st := ImportBots(cfg, Start(chats, index), bots).state;
            Accounted(cfg, chats, st) && ReportFrom(cfg, bots, st)
  {
    assert bots[..|bots|] == bots;
    BotsReport(cfg, chats, bots, Start(chats, index), |bots|);
  }

  /** Why a chat is skipped, added or stops the run, in terms of the section: it is there already; its alias is
      free; or its alias stands for another chat, and then the flags decide. */
  lemma StepDecides(cfg: Settings, src: Source, st: Import, chat: ChatInfo)
    requires IsIndexOf(st.idIndex, st.chats)
    ensures var alias, step := FreeAlias(Base(cfg, src, chat), st.generated), ImportOne(cfg, src, st, chat);
            if HasId(st.chats, chat.id) then
              && SkippedAs(st, step) && LastSkip(step).AlreadyExists?
              && LastSkip(step).alias in st.chats && st.chats[LastSkip(step).alias].id == chat.id
            else if alias !in st.chats || (cfg.overwrite && !cfg.skipExisting) then
              step.Goes? && step.state.added == st.added + [Added(src.bot, alias, chat.id)]
            else if cfg.single && !cfg.skipExisting then
              step == Stops(alias, st.chats[alias].id)
            else
              && SkippedAs(st, step) && LastSkip(step) == AliasConflict(src.bot, alias, chat.id, st.chats[alias].id)
    ensures var step := ImportOne(cfg, src, st, chat);
            step.Goes? ==> (step.state.failed <==> st.failed || FailsRun(cfg, src, st, chat))
  {
    var alias := FreeAlias(Base(cfg, src, chat), st.generated);
    if chat.id in st.idIndex { assert st.chats[st.idIndex[chat.id]].id == chat.id; }
    if alias in st.chats && st.chats[alias].id == chat.id { assert HasId(st.chats, chat.id); }
  }

  ghost predicate SkippedAs(st: Import, step: Verdict) {
    step.Goes? && step.state.chats == st.chats && step.state.added == st.added && step.state.skipped != []
  }

  function LastSkip(step: Verdict): Skipped
    requires step.Goes? && step.state.skipped != []
  {
    step.state.skipped[|step.state.skipped| - 1]
  }

  /** An import for all bots fails at an alias conflict nobody asked to skip or overwrite. */
  ghost predicate FailsRun(cfg: Settings, src: Source, st: Import, chat: ChatInfo) {
    && !cfg.single && !cfg.skipExisting && !cfg.overwrite
    && !HasId(st.chats, chat.id) && FreeAlias(Base(cfg, src, chat), st.generated) in st.chats
  }
}
