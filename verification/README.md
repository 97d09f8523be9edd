# Verified model of express-botx

A Dafny model of the stateful and index-heavy parts of express-botx, a command-line client and HTTP gateway that
sends messages to eXpress messenger chats through BotX, with proofs of what those parts promise. Every module
follows one source file or one component; code that updates variables, fields or maps is a method or a class
proved against a specification, and the theorems are lemmas about those specifications.

`dafny verify dfyconfig.toml` checks everything.

## What is modelled

**Single-flight protocols.** `Membership` and `TokenClient` hold the state behind the two mutexes and the code
sections that run under them, as classes. `MembershipRuns` and `TokenRuns` put those sections into transition
systems: callers arrive, wait, give up and are answered, detached goroutines finish, publish and release, in any
interleaving. The theorems hold in every reachable state of every run.

**GitLab delivery.** `GitlabSender` is the startup builder, which stops at the first fault; `GitlabValidation` is
the offline validator, which collects everything it can decide. Both are tied to one order-free definition,
`GitlabSender.Acceptable`: all targets usable and pairwise different chats, every route chat standing for a target
without switching the bot. `GitlabAgreement` proves that the two hand-synchronised rule sets agree where every
alias id is a UUID, and that the validator's errors are right under every resolution of secret ids;
`GitlabResolution`, with the secrets of `ChatSecrets`, says exactly which senders some secrets make acceptable;
`GitlabFindings` says of every fault and finding when exactly it occurs and what it names. `Glob` and
`GitlabRouting` decide which rules match; `GitlabDelivery` shows that every list a message is delivered to is
inside the sender's scope, reaches every chat it is meant for, and no other.

**Mentions and truncation.** `MentionParser` finds the tokens and reads their bodies, `MentionRewriting` replaces
them and builds the mentions array, `MentionMeaning` says from the written text what becomes of every token,
`Truncation` cuts a message without cutting a placeholder, `MentionFilter` drops the entries whose placeholder was
cut away, `MentionIds` says for which ids it does so rightly. `MentionPipeline` connects the first half with the second.

**Chat import.** `ChatAliases` has the slugs and the unbounded search for a free alias, `ChatImport` the import loops
with their two maps, `ChatImportProperties` what a run keeps and why a second run changes nothing, `ChatImportReport`
that every line of its report is true.

**The rest.** `Worker` records everything one queued message makes the worker do, step by step, and states the
rules that fix each next step from the history; `BotIds` makes a lookup in map order deterministic; `ErrorBody`
cuts UTF-8; `ChatList` parses and compares chat lists.

BotX, the token endpoint, the user directory, URL decoding, lower-casing, transliteration, regular expressions, generated
ids and clocks are arbitrary functions or nondeterministic steps. Go's map iteration is an arbitrary choice.

## What the proofs show beyond the documentation

- A truncation suffix may not contain or complete a mention placeholder. `MentionFilter.UnsafeSuffixKeepsOrphans`
  builds, for every suffix that may do so, a message whose orphaned entry is kept. For the other suffixes, those
  without `}` among them, capping drops exactly the right entries as long as the mention id is not breakable.
- A mention id is breakable when its placeholder has room for a cut behind its first `}` that no line break takes back
  there, or when it has a `}` and begins no mention behind the last one (a bare `{mention:` at its end aside). Ids
  without `}` never are. `MentionIds.MisjudgedExactly` proves the restriction exact for every id: some message, safe
  suffix and limit misjudge its entry exactly when the id is breakable, and the definition looks at the id alone.
  Every id with a `}` and no mention in it is (`MentionIds.BracedIdIsMisjudged`), but a `}` alone does not make one so
  (`MentionIds.LineBreakShields`).
- Membership cache keys join bot and chat with a NUL, so a chat id that contains one has the key of another
  bot's chat (`Membership.NulChatSharesItsKey`); without NULs the key is faithful.
- With secret chat ids the validator's silence alone does not mean that some secrets make a sender acceptable
  (`GitlabResolution.OneSecretForTwoChats`, `GitlabResolution.OneSecretForTwoTargets`). A secret is a reference that
  is read once for all aliases that write it; other ids stay as they are.
  `GitlabResolution.AcceptableForSomeSecrets` says for every sender and both modes exactly when some secrets do: the
  validator is silent, every secret of the section has a form that can be read, no reference lacks an id, no two
  targets write the same id, and the ids written by route chats can be assigned to targets: the target that writes the
  same id if there is one, a secret target of its own for any other known id, any one target for any other secret, and
  never one whose bot contradicts a route chat with that id.
- Chat ids that differ in letter case are one chat to the membership checker but two delivery targets to the
  gateway (`GitlabDelivery.SpellingsAreTwoTargets`); no list delivers to a chat in two spellings exactly when no two
  scope keys are equal up to case (`GitlabDelivery.DistinctUpToCaseExactly`).
- An import step leaves the id index out of step with the chats exactly when it overwrites an alias whose chat
  another alias stands for too (`ChatImportProperties.IndexIsKeptExactly`). A section can be brought to that at the
  start of a run exactly when aliases are overwritten and one that shares its id is the name some new chat would get
  (`ChatImportProperties.LosesTrackExactly`): any shared alias in slug form is
  (`ChatImportProperties.SlugAliasLosesTrack`), aliases the importer never writes are not
  (`ChatImportProperties.ForeignAliasesAreSafe`). The branch for an alias that already stands for the chat is dead when
  ids are unique (`ChatImportProperties.SameChatBranchIsDead`).
- Bots without an id do not count in the validation (`BotIds.EmptyIdIsNotChecked`), so looking up the empty id may
  give either of any two that differ (`BotIds.EmptyIdIsAmbiguous`).
- The worker computes its backoff in floating point before capping it. Beyond the int64 range the conversion is
  left to the platform; where it yields the smallest integer, the default backoff of one second turns from a
  minute into no wait at all from the sixteenth retry on (`Worker.DefaultBackoffOverflows`). `Worker.WaitFormula`
  says exactly when the k-th pause is `min(60s, backoff * 5^(k-1))`: when the product as rounded fits, or converts
  to what comes to the same.
- A mentions array that cannot be read is replaced once a token was parsed, and nothing reports it.
  `MentionRewriting.CallersEntriesSurviveExactly`: what the caller sent survives, in front and in order, exactly when
  it can be read or nothing is parsed. The commands and the HTTP handlers reject such an array before parsing
  (internal/cmd/send.go:223-231, internal/cmd/enqueue.go:195-202, internal/server/handler_send.go:86-92 and 372-379);
  only a queue message can bring one to the worker (internal/cmd/worker.go:262-264).

## Model

| member | source | states |
|---|---|---|
| Membership.MembershipChecker.Check | internal/server/membership.go:123-149 | the lock section of check: an unexpired answer is returned, an expired one dropped, a lookup joined, started, or refused at the cap |
| Membership.MembershipChecker.Finish | internal/server/membership.go:175-189 | the lock section of run: the call leaves the in-flight table, only a successful answer is stored, with the lifetime of that answer |
| Membership.MembershipChecker.Sweep | internal/server/membership.go:194-203 | whatever order the map is walked in, exactly the unexpired entries stay, or nothing if they still fill the cache |
| Membership.Swept | internal/server/membership.go:194-203 | a sweep always leaves room for one more entry |
| Membership.Options.TtlOf | internal/server/membership.go:111-116 | each answer has its own lifetime; one that is not positive means the default of that answer, a minute or fifteen seconds |
| Membership.KeySeparates | internal/server/membership.go:124-127 | for chat ids without NUL, keys are equal exactly for the same bot and chats that differ in case at most |
| Membership.NulChatSharesItsKey | internal/server/membership.go:127-127 | every chat id with a NUL has the key of another bot and some other chat |
| MembershipRuns.InvHolds | internal/server/membership.go:123-190 | the inductive invariant of all interleavings: table, bounds, sources of cached answers, what each caller was told |
| MembershipRuns.LookupsAreCollapsed | internal/server/membership.go:138-147 | in every reachable state one unfinished lookup per key at most and it is the one in flight; cache and in-flight keys are disjoint; at most 32 in flight and 10000 cached |
| MembershipRuns.CachedAnswerIsFresh | internal/server/membership.go:131-136 | a cached answer comes from a successful lookup of the same bot and chat stored no later and less than its lifetime ago |
| MembershipRuns.SharedAnswerIsFaithful | internal/server/membership.go:153-158 | an uncached answer is the outcome of the joined call, about the same bot and chat, stored after the caller arrived |
| MembershipRuns.WaitersAreServed | internal/server/membership.go:138-158 | a waiting caller's call is in flight, or only its release is left |
| MembershipRuns.OnlySuccessIsStored | internal/server/membership.go:178-188 | no step but the end of a successful lookup of that key adds or changes a cached answer |
| MembershipRuns.FailureIsNotRemembered | internal/server/membership.go:178-179 | after a failed lookup the cache is as before and the next caller with the key starts a new lookup |
| MembershipRuns.LiveAnswerIsGiven | internal/server/membership.go:131-135 | a caller is given a stored answer, positive or negative, exactly while one is live under its key, and that changes nothing |
| MembershipRuns.CallUnderWayIsJoined | internal/server/membership.go:138-140 | without a live answer a caller joins the unfinished lookup of its key, however many are under way |
| MembershipRuns.RefusedExactly | internal/server/membership.go:141-143 | a caller is refused exactly when there is no live answer, no unfinished lookup of its key, and 32 unfinished ones in all |
| MembershipRuns.NewLookupBegins | internal/server/membership.go:144-148 | otherwise a lookup of the chat asked about begins and the caller waits for it |
| MembershipRuns.TableCounts | internal/server/membership.go:138-147 | the in-flight table has as many lines as there are unfinished lookups |
| MembershipRuns.AnswerIsStored | internal/server/membership.go:178-188 | both answers of a lookup are stored, each with its own lifetime |
| MembershipRuns.LiveEntryStays | internal/server/membership.go:123-203 | no step loses an entry that has not expired, except the one that stores an answer into a cache full of live ones, which loses them all |
| MembershipRuns.AnswerIsServed | internal/server/membership.go:123-203 | over every run: an answer is given to all who ask the same before its lifetime is over, unless the cache was emptied in between |
| TokenClient.TokenHolder.StartTokenCall | botx/client.go:274-299 | joins the request in flight or starts the only one |
| TokenClient.TokenHolder.CurrentToken | botx/client.go:246-255 | hands out the token at once when there is one or no secret, otherwise a shared request to wait for |
| TokenClient.TokenHolder.RenewToken | botx/client.go:259-270 | renews only when the rejected generation is still current |
| TokenClient.TokenHolder.PublishCall | botx/client.go:287-296 | a success replaces the token and advances the generation, a failure leaves both; the call carries what the client then holds |
| TokenClient.TokenHolder.New | botx/client.go:92-108 | a client with a secret starts without a token at generation 0 |
| TokenClient.TokenHolder.NewWithToken | botx/client.go:111-115 | a client with a ready token has no secret |
| TokenRuns.InvHolds | botx/client.go:246-330 | the inductive invariant of all interleavings of callers and token requests |
| TokenRuns.OneRequestAtATime | botx/client.go:274-299 | at most one request under way, recorded as in flight exactly then; the generation is the number of successful requests |
| TokenRuns.GenerationMovesOnlyBySuccess | botx/client.go:287-295 | token and generation change only when the request in flight publishes a success, by one generation and to a non-empty token |
| TokenRuns.RenewalsArePaidFor | botx/client.go:316-330 | the generation is at most one more than the number of generations answered 401, and every replaced one was |
| TokenRuns.EachCallSendsAtMostTwice | botx/client.go:316-330 | a call sends at most twice, the second time with a strictly newer token after a 401, always the token of its generation, never an empty one given a secret |
| TokenRuns.ResponseEnds | botx/client.go:316-330 | every response ends its call as it is, except a first 401 given a secret, after which the call can renew |
| TokenRuns.UnauthorizedOnlyTwice | botx/client.go:322-330 | a call with a secret that reports 401 has sent twice |
| TokenRuns.FirstToken | botx/client.go:246-255 | a new call sends the token there is, or waits for the one request under way, which it starts when there is none |
| TokenRuns.RenewedToken | botx/client.go:259-270 | a rejected call sends the token that has replaced its own, or waits for the one request under way |
| TokenRuns.TokenReceived | botx/client.go:302-311 | a waiter fails with the error of its request or sends the token of its request |
| TokenRuns.TokenErrorIsReal | botx/client.go:302-311 | a call fails for want of a token only with the error of a finished request |
| TokenRuns.RequestTellsItsAnswer | botx/client.go:284-296 | what a request gives is what the endpoint answered to it, and a token it gives is the one issued under its generation |
| TokenRuns.RefusedExactly | botx/client.go:322-324 | a generation counts as refused exactly once a call that sent it last is answered 401 |
| TokenRuns.RenewalIsNewer | botx/client.go:259-270 | a renewal that succeeds returns a generation above the rejected one, however it was obtained |
| TokenRuns.WaitersAreServed | botx/client.go:274-311 | a waiting caller's request is in flight, or only its close or the caller's receipt is left |
| TokenRuns.StaticTokenIsNeverRenewed | botx/client.go:248-251 | a client built with a token never changes it, never requests one and never sends twice |
| Glob.GlobMatch | internal/server/gitlab_routing.go:53-75 | the greedy split-and-search equals the character-by-character meaning of the pattern |
| Glob.FindInOrder | internal/server/gitlab_routing.go:65-74 | looking for each piece at its earliest place decides whether the pieces stand in order with the last at the end |
| Glob.LeftmostIsEnough | internal/server/gitlab_routing.go:67-73 | the leftmost choice for an interior piece never loses a match |
| Glob.StarDenotesInOrder | internal/server/gitlab_routing.go:53-75 | a pattern that begins with a star denotes exactly the texts in which its pieces stand in order |
| Glob.PatternByParts | internal/server/gitlab_routing.go:54-62 | without a star a pattern denotes itself, otherwise a literal head and the pieces in order behind it |
| Glob.MatchIsFilling | internal/server/gitlab_routing.go:48-75 | a value matches exactly when it is the pattern with some text written at each star |
| Glob.Segments | internal/server/gitlab_routing.go:54-54 | the pieces are star-free and joined by stars give the pattern back |
| GitlabRouting.EventMatches | internal/server/handler_gitlab.go:230-237 | some entry is the event key, its kind, or the kind's wildcard |
| GitlabRouting.EntryMeaning | internal/server/handler_gitlab.go:230-237 | `kind` and `kind.*` match every event of that kind, `kind.subtype` the events of that kind and subtype, and nothing else |
| GitlabRouting.Matches | internal/server/gitlab_routing.go:46-86 | a glob matcher accepts what its pattern denotes, a regular expression what it accepts |
| GitlabRouting.ConditionMatches | internal/server/gitlab_routing.go:273-282 | some value is accepted by some matcher |
| GitlabRouting.RouteMatches | internal/server/gitlab_routing.go:300-326 | every condition of the rule holds |
| GitlabRouting.EvaluateRoutes | internal/server/gitlab_routing.go:381-401 | the rules reported are the matching ones up to the first matching stop, the chats their chats with repetitions removed in first-seen order |
| GitlabRouting.SelectedExactly | internal/server/gitlab_routing.go:383-399 | a rule counts exactly when it matches and no earlier matching rule stops; the indices ascend |
| GitlabRouting.NothingAfterStop | internal/server/gitlab_routing.go:396-398 | once a matching rule has stopped the scan nothing is added |
| GitlabRouting.DeliveryOfEvent | internal/server/gitlab_routing.go:376-401 | an event is delivered to a chat exactly when a rule that counts names it, and to no chat twice |
| GitlabRouting.ChatsOfRuleByRule | internal/server/gitlab_routing.go:388-395 | the chats come rule after rule, each rule's in its own order |
| Lists.DedupKeepsOrder | internal/server/gitlab_routing.go:389-395 | deduplication keeps the order of first occurrences |
| GitlabSender.CheckTarget | internal/cmd/serve.go:781-796 | the first rule a delivery target breaks, in the order startup tests them |
| GitlabSender.AddTarget | internal/cmd/serve.go:780-800 | a fault-free target enters scope and targets once, under its canonical id |
| GitlabSender.RewriteRoute | internal/cmd/serve.go:814-832 | route chats are replaced by the targets they stand for, or the first fault is reported |
| GitlabSender.RewriteRoutes | internal/cmd/serve.go:813-833 | all routes rewritten in place, or the first faulty route and its first fault |
| GitlabSender.BuildSender | internal/cmd/serve.go:778-842 | startup accepts exactly the acceptable senders; otherwise it reports the first fault in configuration order; an accepted sender has the first-reference scope, the deduplicated targets and the rewritten routes |
| GitlabSender.RoutesStandForTheirChats | internal/cmd/serve.go:813-833 | in an accepted sender every route has as many chats as configured, at each place the target the configured chat stands for |
| GitlabSender.ScopeMeaning | internal/cmd/serve.go:778-800 | the scope holds exactly the ids of the references, each under its first reference |
| GitlabSender.NoTargetFaultMeaning | internal/cmd/serve.go:780-800 | testing targets one after the other finds no fault exactly when all are usable and no two are the same chat |
| GitlabSender.RouteFaultMeaning | internal/cmd/serve.go:814-832 | a route chat is accepted exactly when it stands for some target without a bot conflict |
| GitlabSender.NoFaultMeaning | internal/cmd/serve.go:778-842 | the order-dependent checks together amount to the order-free acceptance condition |
| GitlabFindings.TargetFaultExactly | internal/cmd/serve.go:781-796 | which fault a delivery target has and which references it names, each exactly when it is true; a same-chat fault names the first target of that chat |
| GitlabFindings.RouteFaultExactly | internal/cmd/serve.go:814-830 | the same for a route chat: unresolvable, outside the scope, or bound to another bot than the target of its chat |
| GitlabValidation.SenderCheck.WarnMultiBotOnce | internal/config/config.go:1973-2008 | one multi-bot warning for a raw UUID or unbound alias, at its first place only |
| GitlabValidation.SenderCheck.AddTarget | internal/config/config.go:2009-2023 | the findings of one delivery target, with scope, completeness and warned references kept for the next |
| GitlabValidation.SenderCheck.CheckRouteChat | internal/config/config.go:2039-2061 | the findings of one route chat: unknown, outside a fully decided scope, or bound to another bot |
| GitlabValidation.SenderCheck.CheckChats | internal/config/config.go:2025-2027 | the findings of the sender's chats in order |
| GitlabValidation.SenderCheck.CheckRoutes | internal/config/config.go:2028-2063 | the findings of all routes in order, as targets when the sender has no chats |
| GitlabValidation.ValidateTargets | internal/config/config.go:1938-2064 | everything reported for one sender, in order |
| GitlabFindings.TargetErrorsExactly | internal/config/config.go:1949-2023 | which error a delivery target has and which references it names, each exactly when it is true, from what can be read without secrets |
| GitlabFindings.RouteErrorsExactly | internal/config/config.go:2039-2061 | the same for a route chat; outside the scope is reported only when every target can be read |
| GitlabFindings.WarningsExactly | internal/config/config.go:1973-2008 | a raw UUID or an alias without a bot is warned of once, where it stands first, in multi-bot setups |
| GitlabFindings.TargetFindingsMembers | internal/config/config.go:2009-2027 | every finding about delivery targets belongs to one of them, judged after those in front of it |
| GitlabFindings.RouteItemsExactly | internal/config/config.go:2028-2030 | every chat of every route is looked at, under the path of its route |
| GitlabAgreement.ValidatorAgreesWithBuilder | internal/config/config.go:1932-2065 | all alias ids UUIDs, single-bot mode: no error is reported exactly when startup accepts |
| GitlabAgreement.ValidatorAgreesWithBuilderMultiBot | internal/config/config.go:1932-2065 | all alias ids UUIDs, multi-bot mode: neither error nor warning exactly when startup accepts |
| GitlabAgreement.ScopesAgree | internal/config/config.go:1992-2023 | validator and builder keep equal scopes |
| GitlabAgreement.ErrorsAreSound | internal/config/config.go:1949-1972 | with secret ids, a reported error means startup rejects under every resolution of them, in either mode |
| GitlabResolution.WarningsAreSound | internal/config/config.go:1998-2008 | in multi-bot mode startup rejects every sender an error or a warning is reported for, under every resolution of secret ids |
| ChatSecrets.ResolveSecret | internal/secret/secret.go:19-48 | an id without a secret prefix stays; a reference gives what is read, if it has a variable name or a Vault key and an environment variable is not empty |
| GitlabResolution.LoadedIsResolution | internal/config/config.go:2595-2606 | reading the secrets of the section keeps aliases, bots, known ids and missing ids |
| GitlabResolution.AcceptableForSomeSecrets | internal/config/config.go:1949-2062 | for every sender and either mode: under some secrets, one value for each reference, it is accepted exactly when the validator is silent and the sender is coverable |
| GitlabResolution.RoutesOnlyForSomeSecrets | internal/config/config.go:2028-2038 | without chats of its own, a sender without errors is accepted under some secrets exactly when all secrets can be read, no reference lacks an id and no two write the same |
| GitlabResolution.AcceptedIsCoverable | internal/cmd/serve.go:807-833 | under whatever secrets a sender is accepted, its written ids are assigned to its targets |
| GitlabResolution.CoverableIsAccepted | internal/cmd/serve.go:807-833 | from silence and an assignment secrets are built under which startup accepts |
| GitlabResolution.OneSecretForTwoChats | internal/config/config.go:2043-2053 | every sender with one secret target and routes to two known chats is reported without findings and rejected under every resolution |
| GitlabResolution.OneSecretForTwoTargets | internal/cmd/serve.go:791-794 | every sender with two targets that write one secret is reported without findings and rejected under all secrets |
| GitlabResolution.SilenceIsNotAcceptance | internal/config/config.go:2043-2053 | such a sender exists, so silence alone does not suffice |
| GitlabDelivery.Canonicalize | internal/server/handler_gitlab.go:375-398 | decides whether a requested chat is in scope, and under which scope key |
| GitlabDelivery.SenderScopeTargets | internal/server/handler_gitlab.go:372-406 | all requested chats in scope: their targets, one per canonical id in first-seen order; otherwise the first one outside |
| GitlabDelivery.InScopeDirectly | internal/server/handler_gitlab.go:375-398 | for any resolver: in scope is a scope key, or what resolves to one and is its target or does not name another bot than the target's |
| GitlabDelivery.InScopeExactly | internal/server/handler_gitlab.go:375-398 | with the chats section as resolver: a requested chat is in scope exactly when it stands for a target without contradicting its bot |
| GitlabDelivery.RequestReachesExactly | internal/server/handler_gitlab.go:372-406 | a request in scope reaches a target for every chat it names, and no target no named chat stands for |
| GitlabDelivery.RequestOrderIsKept | internal/server/handler_gitlab.go:399-404 | the targets come in the order their chats are first named |
| GitlabDelivery.DefaultDeliveryIsSafe | internal/server/handler_gitlab.go:332-335 | default targets of an accepted sender are distinct UUID chats and resolve back to their scope entry and bot |
| GitlabDelivery.RouteDeliveryIsSafe | internal/server/handler_gitlab.go:322-331 | the same for delivery by routes, whatever the rules match on |
| GitlabDelivery.EveryRoutedChatIsReached | internal/server/handler_gitlab.go:322-331 | an event reaches the target of every chat configured for a rule that counts |
| GitlabDelivery.OnlyRoutedChatsAreReached | internal/server/handler_gitlab.go:322-331 | every target reached is that of such a chat |
| GitlabDelivery.QueryDeliveryIsSafe | internal/server/handler_gitlab.go:312-321 | the same for the requested chats of a query that is in scope, however they are spelled and whatever the resolver answers |
| GitlabDelivery.DistinctUpToCaseExactly | internal/server/handler_gitlab.go:399-404 | no safe list names one chat in two spellings exactly when no two scope keys are equal up to case, which shows in the default targets |
| GitlabDelivery.SpellingsAreTwoTargets | internal/cmd/serve.go:791-798 | any two spellings of a chat id are accepted as two targets and both delivered to |
| GitlabDelivery.ScopeEntryDelivers | internal/server/handler_gitlab.go:66-80 | every scope entry's target resolves to the key it stands under |
| Truncation.LastLineBreak | internal/botapi/truncate.go:43-57 | the position just past the last newline in the window before the cut, or none |
| Truncation.SpanAround | internal/botapi/truncate.go:76-92 | a core that is closed later is a placeholder up to the first closing brace, with all sigils before it |
| Truncation.PlaceholderSpans | internal/botapi/truncate.go:67-95 | ordered disjoint spans, each a placeholder with its sigils, covering every placeholder of the text |
| Truncation.PullOutOfPlaceholder | internal/botapi/truncate.go:99-106 | the cut stays when it is inside no span, otherwise it moves to the start of the span around it |
| Truncation.TruncateMessage | internal/botapi/truncate.go:18-39 | cut exactly when over a positive limit; then at most limit runes, a prefix plus the suffix that fits, ending at the greatest position not after the preferred one and inside no placeholder |
| Truncation.SpansDecideInside | internal/botapi/truncate.go:59-106 | a position is inside a placeholder, defined without scanning, exactly when it is inside a span |
| Truncation.CutIsUnique | internal/botapi/truncate.go:18-39 | the contract determines the cut |
| Truncation.CutFillsTheLimit | internal/botapi/truncate.go:27-39 | with no line end shortly before and no placeholder across it, the limit is used up |
| Truncation.CutFollowsTheLine | internal/botapi/truncate.go:33-39 | a line that ends shortly before the limit, outside placeholders, ends the kept text |
| Truncation.CutSplitsNoMention | internal/botapi/truncate.go:59-66 | no occurrence of a mention's placeholder text straddles the cut |
| MentionFilter.FilterOrphanMentions | internal/botapi/mentions_filter.go:22-53 | the entries that are not orphaned in their order, the two decoding errors, and no change without an array |
| MentionFilter.LinkedEntryByEntry | internal/botapi/mentions_filter.go:33-48 | filtering keeps the order and takes out an entry exactly when it has an id whose placeholder the original shows and the body does not |
| MentionFilter.CapBody | internal/botapi/client.go:104-125 | untouched when it fits; otherwise the cut body and the filtered entries, or the original ones when they cannot be read |
| MentionIds.CapKeepsMentionsConsistent | internal/botapi/client.go:104-125 | for safe suffixes and ids that are not breakable an entry is dropped exactly when its placeholder stood in the message and every occurrence starts at or after the cut |
| MentionIds.BraceFreeIdIsUnbreakable | internal/botapi/mentions_filter.go:40-42 | an id without a closing brace is not breakable |
| MentionIds.MisjudgedExactly | internal/botapi/mentions_filter.go:40-45 | some message, safe suffix and limit misjudge the entry of an id exactly when the id is breakable |
| MentionIds.SplittableExactly | internal/botapi/truncate.go:31-36 | truncation keeps a part of a placeholder at some limit exactly when its text has room behind its first closing brace that no line break takes back |
| MentionIds.BracedIdIsMisjudged | internal/botapi/mentions_filter.go:40-45 | so is every id with a closing brace that begins no mention |
| MentionIds.LineBreakShields | internal/botapi/truncate.go:33-36 | a closing brace alone does not make an id breakable |
| MentionFilter.BraceFreeSuffixIsSafe | internal/botapi/client.go:96-99 | every suffix without a closing brace is safe |
| MentionFilter.UnsafeSuffixKeepsOrphans | internal/botapi/mentions_filter.go:40-45 | for every unsafe suffix some message is capped so that an orphaned entry is kept |
| MentionParser.Scan | internal/mentions/parser.go:297-333 | the tokens from left to right, each closed at the first bracket or ended by newline or end of text, up to twice the limit |
| MentionParser.ScanIsComplete | internal/mentions/parser.go:297-333 | below the cap every occurrence of the token prefix lies wholly inside a found token |
| MentionParser.TokensApart | internal/mentions/parser.go:297-333 | tokens are in bounds, ordered and disjoint |
| MentionParser.ScanIsDetermined | internal/mentions/parser.go:297-333 | the contract determines the list of tokens |
| MentionParser.ParseInvertsWrite | internal/mentions/parser.go:342-387 | the body parser accepts exactly the written forms of a token and reads back what was written |
| MentionParser.RejectionIsExplained | internal/mentions/parser.go:342-387 | a rejected body is rejected for a reason that is true of it in terms of the grammar |
| MentionRewriting.ClassifyToken | internal/mentions/parser.go:109-169 | what becomes of one token, with the limit, lookup and id counters |
| MentionRewriting.Normalize | internal/mentions/parser.go:182-250 | an entry carries the next fresh id; a token that is kept has a lookup error |
| MentionRewriting.Parse | internal/mentions/parser.go:86-178 | disabled: everything as it came; otherwise the rewritten message, the merged array and the errors of the scanned tokens |
| MentionMeaning.HuidMentions | internal/mentions/parser.go:230-240 | a written huid token mentions that user under the written name, in its place in the array and the message |
| MentionMeaning.EmailMentions | internal/mentions/parser.go:204-225 | a written email token mentions the user the directory finds, under the written name or else the found one |
| MentionMeaning.UnknownEmailStays | internal/mentions/parser.go:197-210 | without a directory, or when the lookup fails, it stays in the text with an error that says why, and gives no entry |
| MentionMeaning.AllMentions | internal/mentions/parser.go:244-250 | a written `all` token mentions everybody, without data |
| MentionMeaning.WellFormedExactly | internal/mentions/parser.go:144-148 | the tokens counted against the limit are exactly the closed ones whose text the grammar writes |
| MentionMeaning.LooksUpExactly | internal/mentions/parser.go:196-204 | the directory is asked for exactly the written email tokens within the limit |
| MentionMeaning.UnclosedStays | internal/mentions/parser.go:120-129 | an unclosed token stays and is reported |
| MentionMeaning.MalformedStays | internal/mentions/parser.go:131-141 | a closed token that says nothing stays and is reported with a true reason |
| MentionMeaning.PastTheLimitStays | internal/mentions/parser.go:113-158 | the first written token past the limit stays and is reported, all later tokens stay in silence |
| MentionMeaning.ResultOfParse | internal/mentions/parser.go:171-178 | the result is the rewritten message, the errors in order, and the caller's entries followed by the parsed ones |
| MentionRewriting.CallersEntriesSurviveExactly | internal/mentions/parser.go:254-271 | what the caller sent survives, in front and in order, exactly when it can be read or nothing is parsed |
| MentionRewriting.RawIsNotReported | internal/mentions/parser.go:254-271 | message and errors do not depend on the caller's array |
| MentionRewriting.UnreadableIsReplaced | internal/mentions/parser.go:260-263 | a message with one token loses an unreadable array without an error |
| MentionRewriting.RewritesOnlyTokens | internal/mentions/parser.go:86-178 | token by token, the text between tokens stands unchanged and the token's piece follows it |
| MentionRewriting.RewrittenBegins | internal/mentions/parser.go:105-171 | behind the last piece stands the untouched rest of the message |
| MentionRewriting.NothingReplacedNothingChanged | internal/mentions/parser.go:86-178 | without new entries the message is unchanged |
| MentionRewriting.PlaceholderNamesItsEntry | internal/mentions/parser.go:160-167 | the i-th entry carries the i-th fresh id and the placeholder put in its token's place names it |
| MentionRewriting.EntryHasToken | internal/mentions/parser.go:160-167 | every entry comes from one replaced token |
| MentionRewriting.LimitBoundsWork | internal/mentions/parser.go:144-160 | entries and directory lookups stay within the limit |
| MentionRewriting.EveryTokenAccountedFor | internal/mentions/parser.go:109-169 | one limit error exactly when the limit is exceeded; otherwise entries plus errors equals tokens |
| MentionPipeline.PlaceholderStandsOnce | internal/mentions/parser.go:160-171 | with ids drawn that are different, without braces and not shown by the message, a replaced token's placeholder stands in the rewritten message only where it was put |
| MentionPipeline.ParsedMentionLivesWithItsText | internal/botapi/client.go:104-125 | with such ids a parsed mention survives the cap exactly when its placeholder is whole in the kept text |
| ChatAliases.SlugifyChatAlias | internal/cmd/chats.go:1105-1119 | slug characters, one hyphen for any others between them, none at the ends |
| ChatAliases.SlugForm | internal/cmd/chats.go:1105-1119 | every slug is in slug form |
| ChatAliases.SlugOfSlug | internal/cmd/chats.go:1105-1119 | a text in slug form is its own slug |
| ChatAliases.SlugSeparates | internal/cmd/chats.go:1105-1119 | any other character separates: the slugs on both sides of it are joined by one hyphen |
| ChatAliases.FirstFree | internal/cmd/chats.go:1094-1102 | the search ends with the first free candidate after at most one try more than there are taken names |
| ChatAliases.GenerateChatAlias | internal/cmd/chats.go:1086-1103 | the first free alias for the chat's base name, never a taken one |
| ChatAliases.BaseByParts | internal/cmd/chats.go:1086-1093 | the base is the slug of the name, or `chat-` and the first eight characters of the id, behind the slug of the prefix |
| ChatAliases.CandidateInjective | internal/cmd/chats.go:1098-1098 | different counters give different candidates, none of them the base |
| ChatAliases.TriesBounded | internal/cmd/chats.go:1097-1102 | while everything tried is taken, tries do not exceed the taken names |
| ChatAliases.SecondAlias | internal/cmd/chats.go:1094-1098 | a taken base is followed by the alias numbered 2 |
| ChatAliases.FirstFreeUnique | internal/cmd/chats.go:1094-1102 | the contract determines the alias |
| ChatImport.BuildChatIDIndex | internal/cmd/chats.go:1078-1084 | in every map order each id leads to an alias that carries it |
| ChatImport.Importer.ImportChat | internal/cmd/chats.go:588-658 | one chat: skipped, added, overwritten, reported as a conflict, or the run stops |
| ChatImport.Importer.ImportChats | internal/cmd/chats.go:588-658 | the chats of one bot in order, up to the first that stops the run |
| ChatImport.Importer.ImportAllBots | internal/cmd/chats.go:719-840 | all bots in order with shared maps and aliases; a bot that cannot be listed is reported and passed over |
| ChatImportProperties.RunKeepsInverseAndAliases | internal/cmd/chats.go:719-840 | from unique ids: the index stays the exact inverse, every added alias keeps its chat, default flags do not move, every chat is reported once |
| ChatImportReport.ReportIsTrue | internal/cmd/chats.go:719-840 | over every run: the section changes exactly under the aliases reported as added, each reported once for a chat of some bot's list; it then has that chat, the bot it was imported for (or the bot kept from an overwritten alias) and its old default flag |
| ChatImportReport.StepDecides | internal/cmd/chats.go:588-658 | whether one chat is known, added, skipped for a conflict or stops the run, and whether the run fails, from the section and the flags |
| ChatImportProperties.ImportListKeeps | internal/cmd/chats.go:588-658 | the same for one list; added plus skipped grows by its length |
| ChatImportProperties.InverseIffUnique | internal/cmd/chats.go:1078-1084 | the built index is an exact inverse exactly when ids are unique |
| ChatImportProperties.SameChatBranchIsDead | internal/cmd/chats.go:607-616 | with unique ids the branch for an alias already standing for the chat is never taken |
| ChatImportProperties.IndexIsKeptExactly | internal/cmd/chats.go:588-658 | one chat leaves the index in step with the section exactly unless it overwrites an alias that shares its id |
| ChatImportProperties.LosesTrackExactly | internal/cmd/chats.go:588-639 | for the given slugs and index, some first chat loses an id exactly when aliases are overwritten and one that shares its id is the base name of a chat with a new id |
| ChatImportProperties.SlugAliasLosesTrack | internal/cmd/chats.go:631-639 | every shared alias in slug form is such a name |
| ChatImportProperties.ForeignAliasesAreSafe | internal/cmd/chats.go:1086-1093 | shared aliases that are neither slugs nor fallback names are not |
| ChatImportProperties.ImportIsIdempotent | internal/cmd/chats.go:588-658 | without overwrite a second run over chats already seen ends, adds nothing and leaves the chats as they are |
| Worker.BotClient.HandleMessage | internal/cmd/worker.go:232-354 | one message is handled by the rules and ends as the result says |
| Worker.BotClient.Deliver | internal/cmd/worker.go:283-333 | the retry loop ends in success, a permanent failure, an interrupted wait, or with all retries used |
| Worker.BotClient.TryOnce | internal/cmd/worker.go:301-319 | one round: a token if none is held, a send, and after a 401 at most one more |
| Worker.BotClient.Resend | internal/cmd/worker.go:320-334 | after a 401 a new token and the same message once more; a second 401 or a failed refresh ends delivery |
| Worker.BotClient.PublishResult | internal/cmd/worker.go:385-399 | a result is published only when a reply is wanted |
| Worker.SendsAreBounded | internal/cmd/worker.go:286-334 | at most 2 * (retryCount + 1) sends |
| Worker.SuccessEndsDelivery | internal/cmd/worker.go:309-312 | nothing follows a successful send but the publication of its sync id |
| Worker.PublishedLast | internal/cmd/worker.go:336-353 | at most one result is published and nothing follows it |
| Worker.SentMeansSent | internal/cmd/worker.go:349-352 | "sent" is published only right after the successful send whose sync id it carries |
| Worker.ResultIsFaithful | internal/cmd/worker.go:336-353 | acknowledged exactly after a successful send, refused exactly after an uninterrupted failure, published when a reply is wanted |
| Worker.PublishedTellsResult | internal/cmd/worker.go:336-353 | what is published of a tried delivery is its success with the sync id, or that it failed |
| Worker.FirstRefusalIsAnswered | internal/cmd/worker.go:316-331 | without a static token a first 401 never ends a delivery: a new token is asked for, and the message sent again under it |
| Worker.StaticRefusalEnds | internal/cmd/worker.go:316-321 | a refused static token ends the delivery |
| Worker.FailureHasItsReason | internal/cmd/worker.go:286-340 | an uninterrupted delivery fails at a 401 for a static or just renewed token, at a failed renewal, or with the retries used up |
| Worker.OtherFailureIsRetried | internal/cmd/worker.go:286-306 | every other failure is followed by the next backoff while retries are left |
| Worker.SentUnderLastToken | internal/cmd/worker.go:301-331 | every send goes out under the token obtained last |
| Worker.WaitsAreBackoffs | internal/cmd/worker.go:287-300 | the k-th wait is the k-th backoff |
| Worker.TotalWaitIsBounded | internal/cmd/worker.go:287-300 | the waits add up to at most a minute per retry |
| Worker.WaitFormula | internal/cmd/worker.go:288-291 | for every backoff, the k-th pause is min(60s, backoff * 5^(k-1)), none when negative, exactly when the rounded product fits or converts to what comes to the same |
| Worker.DefaultBackoffOverflows | internal/cmd/worker.go:288-291 | where out-of-range values convert to the smallest int64, the default backoff is no pause from the sixteenth retry on |
| Worker.NothingWithoutBot | internal/cmd/worker.go:245-281 | for an unknown bot and in dry-run nothing is sent, awaited or authenticated |
| Worker.NotDelivered | internal/cmd/worker.go:245-281 | such a message is acknowledged and published as failed or as a dry run |
| BotIds.ValidateBotIDs | internal/config/config.go:2655-2718 | accepts exactly when bots sharing a non-empty id agree; otherwise names two that do not and the first field they differ in |
| BotIds.FirstMismatch | internal/config/config.go:2675-2705 | nothing is reported exactly for equal configurations; otherwise the first field that differs, all before it being equal |
| BotIds.BotByID | internal/config/config.go:2722-2729 | some bot of that id in map order, or none exists |
| BotIds.ValidMeansDeterministic | internal/config/config.go:2655-2729 | acceptance is exactly that lookup and delivery policy give one configuration in every map order, for non-empty ids |
| BotIds.EmptyIdIsNotChecked | internal/config/config.go:2670-2672 | a section is accepted exactly when it is without the bots that have no id |
| BotIds.EmptyIdIsAmbiguous | internal/config/config.go:2722-2729 | looking up the empty id may give either of any two bots without one that differ |
| BotIds.BotDeliveryPolicy | internal/config/delivery.go:17-35 | the configured cap and suffix, 4096 and an ellipsis where none is set; a negative cap means none |
| ErrorBody.TruncateErrorBody | botx/errors.go:84-93 | whole up to 2048 bytes, otherwise the bytes up to the last character boundary and the note with both counts |
| ErrorBody.CutBodyIsWellFormed | botx/errors.go:88-92 | a cut of well-formed UTF-8 is well-formed with its note and keeps at least 2045 bytes |
| ErrorBody.ErrorCutIsUnique | botx/errors.go:88-91 | the contract determines the cut |
| ErrorBody.PrefixWellFormed | botx/errors.go:88-91 | well-formed text cut at a boundary is well-formed |
| ErrorBody.BoundaryNear | botx/errors.go:88-91 | well-formed text has a boundary within three bytes before any position |
| ChatList.ParseChatIDs | internal/server/multisend.go:72-88 | the trimmed non-empty entries, repetitions removed in first-seen order |
| ChatList.EntriesPartByPart | internal/server/multisend.go:73-87 | the entries come part after part, each trimmed, the empty ones left out |
| ChatList.TrimExactly | internal/server/multisend.go:77-77 | trimming takes exactly the space off both ends |
| ChatList.JoinInvertsSplit | internal/server/multisend.go:73-73 | the parts between the commas joined again are the text |
| ChatList.SameChats | internal/server/multisend.go:92-106 | equal lengths and every chat of one list in the other |
| ChatList.SameChatsIsSetEquality | internal/server/multisend.go:90-106 | for parsed lists that is equality of the sets of chats |
| ChatList.ParseJoinParse | internal/server/handler_send.go:102-115 | joining a parsed list and parsing it again gives the list back |

## Left out

- HTTP handlers, request decoding, response texts, logging, metrics and error tracking, and `fanout`: plumbing or
  one loop with no state to keep.
- BotX endpoint wrappers, Vault, token caches, the queue drivers, TLS reload, templates, configuration layering and
  single-field format checks: input/output, or settled by reading one branch.
- Error message texts: an error is modelled by its kind and the values it mentions.
- Timeouts of detached lookups and token requests: a goroutine may take any time to finish, so nothing is proved
  about when a waiter is answered, only about what it is answered.
- Times of membership answers are measured from the moment the answer is stored, which is what the code stamps; the
  time a lookup's answer spent waiting for the mutex before that is not bounded.
- A reference to a shared call is modelled as its index in the list of all calls ever made; calls are never freed.
- What names an environment can hold and what Vault answers: reading a secret reference is an arbitrary function of
  it, apart from the forms that can never be read.
- Secrets, templates, regular expressions and labels of a GitLab sender, and how a selector reads the payload: the
  builder's target and route rules are modelled alone, a selector is an arbitrary function of the event.
- Sorting and type filtering of importable chats: lists are taken in any order, which the proofs do not depend on.
- Saving the configuration after an import and dry runs of it: the maps are modelled, not the file.
- JSON re-encoding of a merged or filtered mentions array: entries are values, white space between them is not
  modelled. Invalid UTF-8 in a message is not modelled either; a message is a sequence of runes.
- Byte offsets in the mention scanner: a message is a sequence of characters there too, which makes no difference
  as all delimiters are ASCII.
- Floating-point arithmetic itself: the product of backoff and power is any number within the bounds that double
  precision keeps (exact up to 2^53, off by less than a thousandth while finite).
- Sharing of one worker client by messages handled at the same time, and the map the clients are kept in: a run
  starts with any token and handles one message.
- Inline mention parsing inside the worker, with its own token use: the worker's trace begins after it.
