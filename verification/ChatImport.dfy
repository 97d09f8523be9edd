/** `config chat import` (internal/cmd/chats.go): the import loops of runChatsImport, for one bot, and
    runChatsImportAll, for all of them. */
module ChatImport {
  import opened ChatRefs
  import opened ChatAliases

  datatype ChatInfo = ChatInfo(id: string, name: string)

  /** The flags of a run. `single` tells the two commands apart: only the first stops at a conflict,
      and only it keeps the old bot of an overwritten alias when none was given. */
  datatype Settings = Settings(slug: string -> string, single: bool, skipExisting: bool, overwrite: bool)

  /** The bot chats are imported for, and the prefix of its aliases. */
  datatype Source = Source(bot: string, prefix: string)

  datatype Added = Added(bot: string, alias: string, id: string)

  datatype Skipped =
    | AlreadyExists(bot: string, alias: string, id: string)
    | AliasConflict(bot: string, alias: string, id: string, existing: string)
    | BotFailed(bot: string, reason: string)

  /** The variables of a run: the chats section, its inverse index, the aliases handed out so far, the
      report and whether anything failed. */
  datatype Import = Import(chats: Chats, idIndex: map<string, string>, generated: set<string>,
                           added: seq<Added>, skipped: seq<Skipped>, failed: bool)

  datatype Verdict = Goes(state: Import) | Stops(alias: string, existing: string)

  function Base(cfg: Settings, src: Source, chat: ChatInfo): string {
    AliasBase(cfg.slug, chat.name, chat.id, src.prefix)
  }

  function Put(st: Import, src: Source, alias: string, entry: ChatConfig, index: map<string, string>): Import {
    st.(chats := st.chats[alias := entry],
        idIndex := index[entry.id := alias],
        generated := st.generated + {alias},
        added := st.added + [Added(src.bot, alias, entry.id)])
  }

  function Skip(st: Import, why: Skipped): Import {
    st.(skipped := st.skipped + [why])
  }

  /** What happens to one importable chat. */
  ghost function ImportOne(cfg: Settings, src: Source, st: Import, chat: ChatInfo): Verdict {
    if chat.id in st.idIndex then Goes(Skip(st, AlreadyExists(src.bot, st.idIndex[chat.id], chat.id))) else
    var alias := FreeAlias(Base(cfg, src, chat), st.generated);
    if alias !in st.chats then
      Goes(Put(st, src, alias, ChatConfig(chat.id, src.bot, false), st.idIndex))
    else
      var existing := st.chats[alias];
      if existing.id == chat.id then Goes(Skip(st, AlreadyExists(src.bot, alias, chat.id)))
      else if cfg.skipExisting then Goes(Skip(st, AliasConflict(src.bot, alias, chat.id, existing.id)))
      else if !cfg.overwrite then
        if cfg.single then Stops(alias, existing.id)
        else Goes(Skip(st, AliasConflict(src.bot, alias, chat.id, existing.id)).(failed := true))
      else
        var bot := if cfg.single && src.bot == "" then existing.bot else src.bot;
        Goes(Put(st, src, alias, existing.(id := chat.id, bot := bot), st.idIndex - {existing.id}))
  }

  ghost function ImportList(cfg: Settings, src: Source, st: Import, list: seq<ChatInfo>): Verdict {
    if list == [] then Goes(st) else
      match ImportList(cfg, src, st, list[..|list| - 1])
      case Stops(alias, existing) => Stops(alias, existing)
      case Goes(mid) => ImportOne(cfg, src, mid, list[|list| - 1])
  }

  /** The answer of one bot: its importable chats, or why they could not be listed. */
  datatype Listing = Listed(chats: seq<ChatInfo>) | NotListed(reason: string)

  datatype BotRun = BotRun(source: Source, listing: Listing)

  ghost function ImportBot(cfg: Settings, st: Import, bot: BotRun): Verdict {
    match bot.listing
    case NotListed(reason) => Goes(Skip(st, BotFailed(bot.source.bot, reason)).(failed := true))
    case Listed(chats) => ImportList(cfg, bot.source, st, chats)
  }

  ghost function ImportBots(cfg: Settings, st: Import, bots: seq<BotRun>): Verdict {
    if bots == [] then Goes(st) else
      match ImportBots(cfg, st, bots[..|bots| - 1])
      case Stops(alias, existing) => Stops(alias, existing)
      case Goes(mid) => ImportBot(cfg, mid, bots[|bots| - 1])
  }

  /** What buildChatIDIndex may return: every id once, under one of its aliases. Which one, when several
      aliases share an id, depends on the order the map is walked in. */
  ghost predicate IsIndexOf(index: map<string, string>, chats: Chats) {
    && (forall a :: a in chats ==> chats[a].id in index)
    && (forall id :: id in index ==> index[id] in chats && chats[index[id]].id == id)
  }

  method BuildChatIDIndex(chats: Chats) returns (index: map<string, string>)
    ensures IsIndexOf(index, chats)
  {
    index := map[];
    var left := chats.Keys;
    while left != {}
      invariant left <= chats.Keys
      invariant forall a :: a in chats && a !in left ==> chats[a].id in index
      invariant forall id :: id in index ==> index[id] in chats && chats[index[id]].id == id
      decreases |left|
    {
      var alias :| alias in left;
      left := left - {alias};
      index := index[chats[alias].id := alias];
    }
  }

  function Start(chats: Chats, index: map<string, string>): Import {
    Import(chats, index, {}, [], [], false)
  }

  class Importer {
    const cfg: Settings
    var chats: Chats
    var idIndex: map<string, string>
    var generated: set<string>
    var added: seq<Added>
    var skipped: seq<Skipped>
    var failed: bool

    constructor (cfg: Settings, chats: Chats)
      ensures this.cfg == cfg && this.chats == chats
      ensures IsIndexOf(idIndex, chats) && View() == Start(chats, idIndex)
    {
      this.cfg, this.chats := cfg, chats;
      generated, added, skipped, failed := {}, [], [], false;
      idIndex := map[];
      new;
      idIndex := BuildChatIDIndex(chats);
    }

    ghost function View(): Import
      reads this
    {
      Import(chats, idIndex, generated, added, skipped, failed)
    }

    method Record(src: Source, alias: string, entry: ChatConfig)
      modifies this`chats, this`idIndex, this`generated, this`added
      ensures View() == Put(old(View()), src, alias, entry, old(idIndex))
    {
      chats := chats[alias := entry];
      idIndex := idIndex[entry.id := alias];
      generated := generated + {alias};
      added := added + [Added(src.bot, alias, entry.id)];
    }

    method ImportChat(src: Source, chat: ChatInfo) returns (stop: bool, alias: string)
      modifies this
      ensures match ImportOne(cfg, src, old(View()), chat)
              case Goes(st) => !stop && View() == st
              case Stops(a, _) => stop && alias == a && View() == old(View())
    {
      alias := "";
      if chat.id in idIndex {
        skipped := skipped + [AlreadyExists(src.bot, idIndex[chat.id], chat.id)];
        return false, "";
      }
      var tries;
      alias, tries := GenerateChatAlias(cfg.slug, chat.name, chat.id, src.prefix, generated);
      if alias in chats {
        var existing := chats[alias];
        if existing.id == chat.id {
          skipped := skipped + [AlreadyExists(src.bot, alias, chat.id)];
          return false, alias;
        }
        if cfg.skipExisting {
          skipped := skipped + [AliasConflict(src.bot, alias, chat.id, existing.id)];
          return false, alias;
        }
        if !cfg.overwrite {
          if cfg.single {
            return true, alias;
          }
          failed := true;
          skipped := skipped + [AliasConflict(src.bot, alias, chat.id, existing.id)];
          return false, alias;
        }
        var updated := existing.(id := chat.id);
        if !cfg.single || src.bot != "" {
          updated := updated.(bot := src.bot);
        }
        idIndex := idIndex - {existing.id};
        Record(src, alias, updated);
        return false, alias;
      }
      Record(src, alias, ChatConfig(chat.id, src.bot, false));
      return false, alias;
    }

    method ImportChats(src: Source, list: seq<ChatInfo>) returns (stop: bool)
      modifies this
      ensures match ImportList(cfg, src, old(View()), list)
              case Goes(st) => !stop && View() == st
              case Stops(_, _) => stop
    {
      for i := 0 to |list|
        invariant ImportList(cfg, src, old(View()), list[..i]) == Goes(View())
      {
        assert list[..i + 1][..i] == list[..i];
        var alias;
        stop, alias := ImportChat(src, list[i]);
        if stop {
          StopsForGood(cfg, src, old(View()), list, i + 1);
          return;
        }
      }
      assert list[..|list|] == list;
      stop := false;
    }

    method ImportAllBots(bots: seq<BotRun>) returns (stop: bool)
      modifies this
      ensures match ImportBots(cfg, old(View()), bots)
              case Goes(st) => !stop && View() == st
              case Stops(_, _) => stop
    {
      for i := 0 to |bots|
        invariant ImportBots(cfg, old(View()), bots[..i]) == Goes(View())
      {
        assert bots[..i + 1][..i] == bots[..i];
        match bots[i].listing {
          case NotListed(reason) =>
            failed := true;
            skipped := skipped + [BotFailed(bots[i].source.bot, reason)];
          case Listed(list) =>
            stop := ImportChats(bots[i].source, list);
            if stop {
              BotsStopForGood(cfg, old(View()), bots, i + 1);
              return;
            }
        }
      }
      assert bots[..|bots|] == bots;
      stop := false;
    }
  }

  lemma {:induction false} StopsForGood(cfg: Settings, src: Source, st: Import, list: seq<ChatInfo>, n: nat)
    requires n <= |list| && ImportList(cfg, src, st, list[..n]).Stops?
    ensures ImportList(cfg, src, st, list).Stops?
    decreases |list| - n
  {
    if n == |list| {
      assert list[..n] == list;
    } else {
      assert list[..n + 1][..n] == list[..n];
      StopsForGood(cfg, src, st, list, n + 1);
    }
  }

  lemma {:induction false} BotsStopForGood(cfg: Settings, st: Import, bots: seq<BotRun>, n: nat)
    requires n <= |bots| && ImportBots(cfg, st, bots[..n]).Stops?
    ensures ImportBots(cfg, st, bots).Stops?
    decreases |bots| - n
  {
    if n == |bots| {
      assert bots[..n] == bots;
    } else {
      assert bots[..n + 1][..n] == bots[..n];
      BotsStopForGood(cfg, st, bots, n + 1);
    }
  }
}
