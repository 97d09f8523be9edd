/** What an import run keeps, and what a second run does. */
module ChatImportProperties {
  import opened ChatRefs
  import opened ChatAliases
  import opened ChatImport
  import opened Text

  ghost predicate UniqueIds(chats: Chats) {
    forall a, b :: a in chats && b in chats && chats[a].id == chats[b].id ==> a == b
  }

  /** The index and the chats section are each other's exact inverse. */
  ghost predicate ExactInverse(index: map<string, string>, chats: Chats) {
    IsIndexOf(index, chats) && forall a :: a in chats ==> index[chats[a].id] == a
  }

  /** The index built at the start is an exact inverse just when no two aliases share an id. */
  lemma InverseIffUnique(index: map<string, string>, chats: Chats)
    requires IsIndexOf(index, chats)
    ensures ExactInverse(index, chats) <==> UniqueIds(chats)
  {
    if ExactInverse(index, chats) {
      forall a, b | a in chats && b in chats && chats[a].id == chats[b].id
        ensures a == b
      {
        assert index[chats[a].id] == a && index[chats[b].id] == b;
      }
    }
  }

  /** Every alias reported as added still stands for the chat it was added for. */
  ghost predicate AddedStand(st: Import) {
    && (forall a :: a in st.generated ==> a in st.chats)
    && forall k :: 0 <= k < |st.added| ==>
         var item := st.added[k];
         item.alias in st.generated && item.alias in st.chats && st.chats[item.alias].id == item.id
  }

  ghost function Defaults(chats: Chats): set<string> {
    set a | a in chats && chats[a].isDefault
  }

  ghost predicate Sound(st: Import) {
    ExactInverse(st.idIndex, st.chats) && AddedStand(st)
  }

  function Reported(st: Import): nat {
    |st.added| + |st.skipped|
  }

  lemma ImportOneKeeps(cfg: Settings, src: Source, st: Import, chat: ChatInfo)
    requires Sound(st) && ImportOne(cfg, src, st, chat).Goes?
    ensures var st' := ImportOne(cfg, src, st, chat).state;
            Sound(st') && Defaults(st'.chats) == Defaults(st.chats) && Reported(st') == Reported(st) + 1
  {
    if chat.id !in st.idIndex {
      var alias := FreeAlias(Base(cfg, src, chat), st.generated);
      assert alias !in st.generated;
      if alias !in st.chats {
        NewAliasKeeps(src, st, alias, ChatConfig(chat.id, src.bot, false));
      } else {
        assert st.idIndex[st.chats[alias].id] == alias;
        var bot := if cfg.single && src.bot == "" then st.chats[alias].bot else src.bot;
        OverwriteKeeps(src, st, alias, st.chats[alias].(id := chat.id, bot := bot));
      }
    }
  }

  lemma NewAliasKeeps(src: Source, st: Import, alias: string, entry: ChatConfig)
    requires Sound(st) && alias !in st.chats && entry.id !in st.idIndex && !entry.isDefault
    ensures var st' := Put(st, src, alias, entry, st.idIndex);
            Sound(st') && Defaults(st'.chats) == Defaults(st.chats)
  {}

  /** The chat the alias stood for leaves the index, the new one enters it. */
  lemma OverwriteKeeps(src: Source, st: Import, alias: string, entry: ChatConfig)
    requires Sound(st) && alias in st.chats && alias !in st.generated && entry.id !in st.idIndex
    requires entry.isDefault == st.chats[alias].isDefault
    ensures var st' := Put(st, src, alias, entry, st.idIndex - {st.chats[alias].id});
            Sound(st') && Defaults(st'.chats) == Defaults(st.chats)
  {
    assert st.idIndex[st.chats[alias].id] == alias;
  }

  /** With unique ids the branch for an alias that already stands for the chat is never taken: such a
      chat has been recognised by its id before. */
  lemma SameChatBranchIsDead(cfg: Settings, src: Source, st: Import, chat: ChatInfo)
    requires Sound(st) && chat.id !in st.idIndex
    ensures var alias := FreeAlias(Base(cfg, src, chat), st.generated);
            alias in st.chats ==> st.chats[alias].id != chat.id
  {
    var alias := FreeAlias(Base(cfg, src, chat), st.generated);
    assert alias in st.chats ==> st.chats[alias].id in st.idIndex;
  }

  lemma {:induction false} ImportListKeeps(cfg: Settings, src: Source, st: Import, list: seq<ChatInfo>)
    requires Sound(st) && ImportList(cfg, src, st, list).Goes?
    ensures var st' := ImportList(cfg, src, st, list).state;
            Sound(st') && Defaults(st'.chats) == Defaults(st.chats) && Reported(st') == Reported(st) + |list|
  {
    if list != [] {
      var before := list[..|list| - 1];
      ImportListKeeps(cfg, src, st, before);
      ImportOneKeeps(cfg, src, ImportList(cfg, src, st, before).state, list[|list| - 1]);
    }
  }

  /** One line of the report for a bot that could not be listed, one for each chat of the others. */
  function ReportLines(bots: seq<BotRun>): nat {
    if bots == [] then 0 else
      var last := bots[|bots| - 1].listing;
      ReportLines(bots[..|bots| - 1]) + if last.Listed? then |last.chats| else 1
  }

  lemma {:induction false} ImportBotsKeeps(cfg: Settings, st: Import, bots: seq<BotRun>)
    requires Sound(st) && ImportBots(cfg, st, bots).Goes?
    ensures var st' := ImportBots(cfg, st, bots).state;
            Sound(st') && Defaults(st'.chats) == Defaults(st.chats) && Reported(st') == Reported(st) + ReportLines(bots)
  {
    if bots != [] {
      var before, last := bots[..|bots| - 1], bots[|bots| - 1];
      ImportBotsKeeps(cfg, st, before);
      if last.listing.Listed? {
        ImportListKeeps(cfg, last.source, ImportBots(cfg, st, before).state, last.listing.chats);
      }
    }
  }

  /** A whole run from a chats section with unique ids, in any mode: the index stays its exact inverse
      (so ids stay unique), every added alias still maps to its chat, the default flags are where they
      were, and every chat is reported exactly once. */
  lemma RunKeepsInverseAndAliases(cfg: Settings, chats: Chats, index: map<string, string>, bots: seq<BotRun>)
    requires IsIndexOf(index, chats) && UniqueIds(chats) && ImportBots(cfg, Start(chats, index), bots).Goes?
    ensures var st := ImportBots(cfg, Start(chats, index), bots).state;
            && ExactInverse(st.idIndex, st.chats) && UniqueIds(st.chats)
            && AddedStand(st)
            && Defaults(st.chats) == Defaults(chats)
            && |st.added| + |st.skipped| == ReportLines(bots)
  {
    InverseIffUnique(index, chats);
    ImportBotsKeeps(cfg, Start(chats, index), bots);
    var st := ImportBots(cfg, Start(chats, index), bots).state;
    InverseIffUnique(st.idIndex, st.chats);
  }

  /** The step would overwrite an alias whose chat another alias stands for too. */
  ghost predicate OverwritesShared(cfg: Settings, src: Source, st: Import, chat: ChatInfo) {
    && chat.id !in st.idIndex && cfg.overwrite && !cfg.skipExisting
    && var alias := FreeAlias(Base(cfg, src, chat), st.generated);
       && alias in st.chats && st.chats[alias].id != chat.id
       && exists other :: other in st.chats && other != alias && st.chats[other].id == st.chats[alias].id
  }

  /** Exactly when a step leaves the index out of step with the section: when it overwrites an alias whose
      chat another alias stands for too. */
  lemma IndexIsKeptExactly(cfg: Settings, src: Source, st: Import, chat: ChatInfo)
    requires IsIndexOf(st.idIndex, st.chats) && ImportOne(cfg, src, st, chat).Goes?
    ensures var st' := ImportOne(cfg, src, st, chat).state;
            IsIndexOf(st'.idIndex, st'.chats) <==> !OverwritesShared(cfg, src, st, chat)
  {
    if chat.id !in st.idIndex {
      var alias := FreeAlias(Base(cfg, src, chat), st.generated);
      if alias !in st.chats {
        NewAliasIndexed(src, st, alias, ChatConfig(chat.id, src.bot, false));
      } else {
        assert st.chats[alias].id in st.idIndex;
        var bot := if cfg.single && src.bot == "" then st.chats[alias].bot else src.bot;
        OverwrittenIndexed(src, st, alias, st.chats[alias].(id := chat.id, bot := bot));
      }
    }
  }

  lemma NewAliasIndexed(src: Source, st: Import, alias: string, entry: ChatConfig)
    requires IsIndexOf(st.idIndex, st.chats) && alias !in st.chats && entry.id !in st.idIndex
    ensures var st' := Put(st, src, alias, entry, st.idIndex); IsIndexOf(st'.idIndex, st'.chats)
  {}

  lemma OverwrittenIndexed(src: Source, st: Import, alias: string, entry: ChatConfig)
    requires IsIndexOf(st.idIndex, st.chats) && alias in st.chats && entry.id !in st.idIndex
    ensures var old' := st.chats[alias].id;
            var st' := Put(st, src, alias, entry, st.idIndex - {old'});
            IsIndexOf(st'.idIndex, st'.chats) <==>
            !exists other :: other in st.chats && other != alias && st.chats[other].id == old'
  {
    var gone := st.chats[alias].id;
    var st' := Put(st, src, alias, entry, st.idIndex - {gone});
    assert gone in st.idIndex && gone != entry.id;
    if other :| other in st.chats && other != alias && st.chats[other].id == gone {
      assert st'.chats[other].id == gone && gone !in st'.idIndex;
    } else {
      forall id | id in st'.idIndex
        ensures st'.idIndex[id] in st'.chats && st'.chats[st'.idIndex[id]].id == id
      {
        assert id != entry.id ==> id in st.idIndex && st.idIndex[id] != alias;
      }
    }
  }

  /** Importing this chat first leaves the index out of step with the section. */
  ghost predicate LosesTrack(cfg: Settings, src: Source, chats: Chats, index: map<string, string>, chat: ChatInfo) {
    var step := ImportOne(cfg, src, Start(chats, index), chat);
    step.Goes? && !IsIndexOf(step.state.idIndex, step.state.chats)
  }

  ghost predicate SharesId(chats: Chats, alias: string) {
    alias in chats && exists other :: other in chats && other != alias && chats[other].id == chats[alias].id
  }

  /** Exactly when a section can lose track of an id at the start of a run: when aliases are overwritten, and
      an alias that shares its id is the name some chat the section does not have would get. */
  lemma LosesTrackExactly(cfg: Settings, chats: Chats, index: map<string, string>)
    requires IsIndexOf(index, chats)
    ensures (exists src, chat :: LosesTrack(cfg, src, chats, index, chat)) <==>
            && cfg.overwrite && !cfg.skipExisting
            && exists name, id, prefix :: id !in index && SharesId(chats, AliasBase(cfg.slug, name, id, prefix))
  {
    if src, chat :| LosesTrack(cfg, src, chats, index, chat) {
      StartLoses(cfg, src, chats, index, chat);
      assert SharesId(chats, AliasBase(cfg.slug, chat.name, chat.id, src.prefix));
    }
    if cfg.overwrite && !cfg.skipExisting {
      if name, id, prefix :| id !in index && SharesId(chats, AliasBase(cfg.slug, name, id, prefix)) {
        StartLoses(cfg, Source("", prefix), chats, index, ChatInfo(id, name));
      }
    }
  }

  /** The first chat of a run meets no alias handed out before: it gets its base name. */
  lemma StartLoses(cfg: Settings, src: Source, chats: Chats, index: map<string, string>, chat: ChatInfo)
    requires IsIndexOf(index, chats)
    ensures LosesTrack(cfg, src, chats, index, chat) <==>
            cfg.overwrite && !cfg.skipExisting && chat.id !in index && SharesId(chats, Base(cfg, src, chat))
  {
    var base := Base(cfg, src, chat);
    assert FreeAlias(base, {}) == base;
    if base in chats { assert chats[base].id in index; }
    if ImportOne(cfg, src, Start(chats, index), chat).Goes? {
      IndexIsKeptExactly(cfg, src, Start(chats, index), chat);
    }
  }

  /** With the importer's own slugs a section can lose track when an alias in slug form shares its id. */
  lemma SlugAliasLosesTrack(cfg: Settings, plain: string -> string, chats: Chats, index: map<string, string>,
                            alias: string)
    requires SlugsBy(cfg.slug, plain)
    requires cfg.overwrite && !cfg.skipExisting && IsIndexOf(index, chats) && SharesId(chats, alias)
    requires alias != "" && InSlugForm(alias) && plain(alias) == alias && plain("") == ""
    ensures exists src, chat :: LosesTrack(cfg, src, chats, index, chat)
  {
    SlugOfSlug(alias);
    assert cfg.slug(alias) == alias && cfg.slug("") == "";
    var id := FreeAlias("chat", index.Keys);
    assert AliasBase(cfg.slug, alias, id, "") == alias;
    LosesTrackExactly(cfg, chats, index);
  }

  /** Aliases the importer never writes are safe, shared or not. */
  lemma ForeignAliasesAreSafe(cfg: Settings, plain: string -> string, chats: Chats, index: map<string, string>)
    requires SlugsBy(cfg.slug, plain) && IsIndexOf(index, chats)
    requires forall alias :: SharesId(chats, alias) ==> !InSlugForm(alias) && !Contains(alias, "chat-")
    ensures forall src, chat :: !LosesTrack(cfg, src, chats, index, chat)
  {
    forall name, id, prefix
      ensures !SharesId(chats, AliasBase(cfg.slug, name, id, prefix))
    {
      BaseIsSlugOrChat(cfg.slug, plain, name, id, prefix);
    }
    LosesTrackExactly(cfg, chats, index);
  }

  // ---- a second run ------------------------------------------------------------------------------

  ghost predicate HasId(chats: Chats, id: string) {
    exists a :: a in chats && chats[a].id == id
  }

  /** Nothing is left to do for this chat: it is there, or the name it would get is. */
  ghost predicate Settled(cfg: Settings, src: Source, chats: Chats, chat: ChatInfo) {
    HasId(chats, chat.id) || ((cfg.skipExisting || !cfg.single) && Base(cfg, src, chat) in chats)
  }

  ghost predicate Grows(before: Chats, after: Chats) {
    forall a :: a in before ==> a in after && after[a] == before[a]
  }

  lemma SettledStays(cfg: Settings, src: Source, before: Chats, after: Chats, chat: ChatInfo)
    requires Grows(before, after) && Settled(cfg, src, before, chat)
    ensures Settled(cfg, src, after, chat)
  {
    if a :| a in before && before[a].id == chat.id {
      assert a in after && after[a].id == chat.id;
    }
  }

  /** The index knows exactly the ids in the section, and every alias handed out is in it. */
  ghost predicate Tracks(st: Import) {
    IsIndexOf(st.idIndex, st.chats) && forall a :: a in st.generated ==> a in st.chats
  }

  lemma ImportOneSettles(cfg: Settings, src: Source, st: Import, chat: ChatInfo)
    requires !cfg.overwrite && Tracks(st) && ImportOne(cfg, src, st, chat).Goes?
    ensures var st' := ImportOne(cfg, src, st, chat).state;
            Tracks(st') && Grows(st.chats, st'.chats) && Settled(cfg, src, st'.chats, chat)
  {
    var st' := ImportOne(cfg, src, st, chat).state;
    if chat.id in st.idIndex {
      assert st.chats[st.idIndex[chat.id]].id == chat.id;
    } else {
      var alias := FreeAlias(Base(cfg, src, chat), st.generated);
      if alias !in st.chats {
        assert st'.chats[alias].id == chat.id;
      } else {
        assert Base(cfg, src, chat) in st.chats;
      }
    }
  }

  lemma {:induction false} ImportListSettles(cfg: Settings, src: Source, st: Import, list: seq<ChatInfo>)
    requires !cfg.overwrite && Tracks(st) && ImportList(cfg, src, st, list).Goes?
    ensures var st' := ImportList(cfg, src, st, list).state;
            Tracks(st') && Grows(st.chats, st'.chats) && forall c :: c in list ==> Settled(cfg, src, st'.chats, c)
  {
    if list != [] {
      var before, last := list[..|list| - 1], list[|list| - 1];
      ImportListSettles(cfg, src, st, before);
      var mid := ImportList(cfg, src, st, before).state;
      ImportOneSettles(cfg, src, mid, last);
      var st' := ImportList(cfg, src, st, list).state;
      forall c | c in list
        ensures Settled(cfg, src, st'.chats, c)
      {
        assert list == before + [last];
        if c in before { SettledStays(cfg, src, mid.chats, st'.chats, c); }
      }
    }
  }

  ghost predicate BotSettled(cfg: Settings, chats: Chats, bot: BotRun) {
    bot.listing.Listed? ==> forall c :: c in bot.listing.chats ==> Settled(cfg, bot.source, chats, c)
  }

  lemma BotSettledStays(cfg: Settings, before: Chats, after: Chats, bot: BotRun)
    requires Grows(before, after) && BotSettled(cfg, before, bot)
    ensures BotSettled(cfg, after, bot)
  {
    if bot.listing.Listed? {
      forall c | c in bot.listing.chats
        ensures Settled(cfg, bot.source, after, c)
      {
        SettledStays(cfg, bot.source, before, after, c);
      }
    }
  }

  lemma {:induction false} ImportBotsSettles(cfg: Settings, st: Import, bots: seq<BotRun>)
    requires !cfg.overwrite && Tracks(st) && ImportBots(cfg, st, bots).Goes?
    ensures var st' := ImportBots(cfg, st, bots).state;
            Tracks(st') && Grows(st.chats, st'.chats) && forall b :: b in bots ==> BotSettled(cfg, st'.chats, b)
  {
    if bots != [] {
      var before, last := bots[..|bots| - 1], bots[|bots| - 1];
      ImportBotsSettles(cfg, st, before);
      var mid := ImportBots(cfg, st, before).state;
      if last.listing.Listed? { ImportListSettles(cfg, last.source, mid, last.listing.chats); }
      var st' := ImportBots(cfg, st, bots).state;
      forall b | b in bots
        ensures BotSettled(cfg, st'.chats, b)
      {
        assert bots == before + [last];
        if b in before { BotSettledStays(cfg, mid.chats, st'.chats, b); }
      }
    }
  }

  /** The state of a run that has changed nothing. */
  ghost predicate Untouched(st: Import, chats: Chats) {
    IsIndexOf(st.idIndex, st.chats) && st.chats == chats && st.generated == {} && st.added == []
  }

  lemma SettledIsSkipped(cfg: Settings, src: Source, st: Import, chats: Chats, chat: ChatInfo)
    requires !cfg.overwrite && Untouched(st, chats) && Settled(cfg, src, chats, chat)
    ensures ImportOne(cfg, src, st, chat).Goes? && Untouched(ImportOne(cfg, src, st, chat).state, chats)
  {
    if a :| a in chats && chats[a].id == chat.id {
      assert chat.id in st.idIndex;
    }
    assert FreeAlias(Base(cfg, src, chat), {}) == Base(cfg, src, chat);
  }

  lemma {:induction false} SettledListIsSkipped(cfg: Settings, src: Source, st: Import, chats: Chats,
                                                list: seq<ChatInfo>)
    requires !cfg.overwrite && Untouched(st, chats) && forall c :: c in list ==> Settled(cfg, src, chats, c)
    ensures ImportList(cfg, src, st, list).Goes? && Untouched(ImportList(cfg, src, st, list).state, chats)
  {
    if list != [] {
      var before, last := list[..|list| - 1], list[|list| - 1];
      assert list == before + [last];
      SettledListIsSkipped(cfg, src, st, chats, before);
      SettledIsSkipped(cfg, src, ImportList(cfg, src, st, before).state, chats, last);
    }
  }

  lemma {:induction false} SettledBotsAreSkipped(cfg: Settings, st: Import, chats: Chats, bots: seq<BotRun>)
    requires !cfg.overwrite && Untouched(st, chats) && forall b :: b in bots ==> BotSettled(cfg, chats, b)
    ensures ImportBots(cfg, st, bots).Goes? && Untouched(ImportBots(cfg, st, bots).state, chats)
  {
    if bots != [] {
      var before, last := bots[..|bots| - 1], bots[|bots| - 1];
      assert bots == before + [last];
      SettledBotsAreSkipped(cfg, st, chats, before);
      assert last in bots && BotSettled(cfg, chats, last);
      if last.listing.Listed? {
        SettledListIsSkipped(cfg, last.source, ImportBots(cfg, st, before).state, chats, last.listing.chats);
      }
    }
  }

  /** What the second run may list: for every bot, chats the first run saw for it, in any order and
      number, or nothing at all. */
  ghost predicate SeenBefore(again: seq<BotRun>, bots: seq<BotRun>) {
    forall b :: b in again ==>
      b.listing.NotListed? ||
      exists f :: f in bots && f.source == b.source && f.listing.Listed?
                  && forall c :: c in b.listing.chats ==> c in f.listing.chats
  }

  /** Without --overwrite an import that ran to its end is idempotent, for one bot and for all: a second
      run over the same chats ends too, adds nothing and leaves the chats section as it is. This holds
      for chats skipped because of an alias conflict as well, for shared ids, and whatever index the
      runs start from. */
  lemma ImportIsIdempotent(cfg: Settings, chats: Chats, index: map<string, string>, bots: seq<BotRun>,
                           index': map<string, string>, again: seq<BotRun>)
    requires !cfg.overwrite && IsIndexOf(index, chats)
    requires ImportBots(cfg, Start(chats, index), bots).Goes?
    requires var after := ImportBots(cfg, Start(chats, index), bots).state.chats; IsIndexOf(index', after)
    requires SeenBefore(again, bots)
    ensures var after := ImportBots(cfg, Start(chats, index), bots).state.chats;
            var second := ImportBots(cfg, Start(after, index'), again);
            second.Goes? && second.state.chats == after && second.state.added == []
  {
    ImportBotsSettles(cfg, Start(chats, index), bots);
    var after := ImportBots(cfg, Start(chats, index), bots).state.chats;
    forall b | b in again
      ensures BotSettled(cfg, after, b)
    {
      if b.listing.Listed? {
        var f :| f in bots && f.source == b.source && f.listing.Listed?
                 && forall c :: c in b.listing.chats ==> c in f.listing.chats;
        assert BotSettled(cfg, after, f);
      }
    }
    SettledBotsAreSkipped(cfg, Start(after, index'), after, again);
  }
}
