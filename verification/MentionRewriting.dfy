/** Parse of internal/mentions/parser.go: the message with its tokens rewritten, the entries
    appended to the mentions array and the errors collected on the way. */
module MentionRewriting {
  import opened Text
  import opened MentionWire
  import opened MentionParser
  import opened Wrappers

  datatype Lookup = Found(huid: string, name: string) | LookupFailed(cause: string)

  /** The world outside: what the i-th directory lookup answers, the i-th fresh mention id, and
      URL decoding. All three are arbitrary; there may be no resolver at all. */
  datatype Env = Env(resolver: Option<(nat, string) -> Lookup>, newMentionId: nat -> string, unescape: Unescape)

  datatype ParseError =
    | Unclosed(token: string)
    | BadToken(token: string, why: BodyError)
    | LookupError(token: string, value: string, cause: string)
    | LimitReached(limit: nat)

  /** What becomes of one token: it stays as it is, with or without an error, or an entry is
      appended and its placeholder takes the token's place. */
  datatype Outcome = Kept(error: Option<ParseError>) | Replaced(entry: RawEntry) {
    function NewEntries(): seq<RawEntry> {
      if Replaced? then [entry] else []
    }

    function NewErrors(): seq<ParseError> {
      if Kept? && error.Some? then [error.value] else []
    }

    function Text(raw: string): string {
      if Kept? then raw else Mark(EntryId(entry))
    }
  }

  datatype Result = Result(message: string, mentions: RawMentions, errors: seq<ParseError>)

  /** A message with the tokens a scan found in it, what parsing their bodies gave, the limit and the
      world. */
  datatype Input = Input(message: string, tokens: seq<TokenSpan>, limit: nat, env: Env, body: nat -> BodyResult) {
    ghost predicate Valid() {
      Tokens(message, tokens)
    }

    function Raw(k: nat): string
      requires k < |tokens| && IsToken(message, tokens[k])
    {
      message[tokens[k].start..tokens[k].end]
    }
  }

  function BodyAt(message: string, tokens: seq<TokenSpan>, unescape: Unescape, k: nat): BodyResult {
    if k < |tokens| && IsToken(message, tokens[k]) && !tokens[k].unclosed then
      ParseTokenBody(message[tokens[k].start + |TOKEN_PREFIX|..tokens[k].end - 1], unescape)
    else
      BadBody(UnknownResolver(""))
  }

  function InputOf(message: string, tokens: seq<TokenSpan>, limit: nat, env: Env): Input {
    Input(message, tokens, limit, env, (k: nat) => BodyAt(message, tokens, env.unescape, k))
  }

  /** A well-formed token consumes one unit of the limit. */
  ghost predicate WellFormed(p: Input, k: nat)
    requires p.Valid() && k < |p.tokens|
  {
    !p.tokens[k].unclosed && p.body(k).Body?
  }

  ghost function WellFormedBefore(p: Input, k: nat): nat
    requires p.Valid() && k <= |p.tokens|
  {
    if k == 0 then 0 else WellFormedBefore(p, k - 1) + if WellFormed(p, k - 1) then 1 else 0
  }

  ghost predicate LooksUp(p: Input, k: nat)
    requires p.Valid() && k < |p.tokens|
  {
    && WellFormed(p, k) && WellFormedBefore(p, k) < p.limit
    && p.body(k).token.resolver == Email && p.env.resolver.Some?
  }

  ghost function LookupsBefore(p: Input, k: nat): nat
    requires p.Valid() && k <= |p.tokens|
  {
    if k == 0 then 0 else LookupsBefore(p, k - 1) + if LooksUp(p, k - 1) then 1 else 0
  }

  function UserEntry(id: string, huid: string, name: string): RawEntry {
    Parsed(id, "user", Some(MentionData(huid, name)))
  }

  /** What stands in the message for a mention. */
  function Mark(id: string): string {
    "@" + Placeholder(id)
  }

  function EntryId(e: RawEntry): string {
    if e.Malformed? then "" else e.mentionId
  }

  /** Resolving one token, given how many lookups were made and ids drawn before it. */
  function Normalize(env: Env, t: ParsedToken, raw: string, lookups: nat, ids: nat): (o: Outcome)
    ensures o.Replaced? ==> o.entry.Parsed? && o.entry.mentionId == env.newMentionId(ids)
    ensures o.Kept? ==> o.error.Some? && o.error.value.LookupError?
  {
    match t.resolver
    case All => Replaced(Parsed(env.newMentionId(ids), "all", None))
    case Huid => Replaced(UserEntry(env.newMentionId(ids), t.value, t.displayName))
    case Email =>
      match env.resolver
      case None => Kept(Some(LookupError(raw, t.value, "no resolver available")))
      case Some(resolve) =>
        match resolve(lookups, t.value)
        case LookupFailed(cause) => Kept(Some(LookupError(raw, t.value, cause)))
        case Found(huid, name) =>
          Replaced(UserEntry(env.newMentionId(ids), huid, if t.displayName == "" then name else t.displayName))
  }

  /** What becomes of the k-th token. The first well-formed token past the limit is reported,
      everything behind it is left alone in silence. */
  ghost function OutcomeOf(p: Input, k: nat): Outcome
    requires p.Valid() && k < |p.tokens|
    decreases k, 1
  {
    assert NextToken(p.message, p.tokens, k);
    if WellFormedBefore(p, k) > p.limit then Kept(None)
    else if p.tokens[k].unclosed then Kept(Some(Unclosed(p.Raw(k))))
    else match p.body(k)
      case BadBody(why) => Kept(Some(BadToken(p.Raw(k), why)))
      case Body(t) =>
        if WellFormedBefore(p, k) == p.limit then Kept(Some(LimitReached(p.limit)))
        else Normalize(p.env, t, p.Raw(k), LookupsBefore(p, k), |EntriesOf(p, k)|)
  }

  /** The entries the first k tokens produced. */
  ghost function EntriesOf(p: Input, k: nat): seq<RawEntry>
    requires p.Valid() && k <= |p.tokens|
    decreases k, 0
  {
    if k == 0 then [] else
      EntriesOf(p, k - 1) + OutcomeOf(p, k - 1).NewEntries()
  }

  ghost function ErrorsOf(p: Input, k: nat): seq<ParseError>
    requires p.Valid() && k <= |p.tokens|
  {
    if k == 0 then [] else
      ErrorsOf(p, k - 1) + OutcomeOf(p, k - 1).NewErrors()
  }

  /** The text standing where the k-th token stood. */
  ghost function Piece(p: Input, k: nat): string
    requires p.Valid() && k < |p.tokens|
  {
    assert NextToken(p.message, p.tokens, k);
    OutcomeOf(p, k).Text(p.Raw(k))
  }

  /** The rewritten message up to the end of the k-th piece. */
  ghost function Spliced(p: Input, k: nat): string
    requires p.Valid() && k <= |p.tokens|
  {
    if k == 0 then "" else
      assert NextToken(p.message, p.tokens, k - 1);
      Spliced(p, k - 1) + p.message[EndOf(p.tokens, k - 1)..p.tokens[k - 1].start] + Piece(p, k - 1)
  }

  ghost function Rewritten(p: Input): string
    requires p.Valid()
  {
    if p.tokens == [] then p.message else
      assert NextToken(p.message, p.tokens, |p.tokens| - 1);
      Spliced(p, |p.tokens|) + p.message[EndOf(p.tokens, |p.tokens|)..]
  }

  function MergeMentions(raw: RawMentions, parsed: seq<RawEntry>): RawMentions {
    if parsed == [] then raw
    else Entries((if raw.Entries? then raw.entries else []) + parsed)
  }

  /** One round of the loop: what to do with token `i`, and the counters afterwards. */
  method ClassifyToken(ghost p: Input, ghost i: nat, message: string, tok: TokenSpan, limit: nat, env: Env,
                       limitHit: bool, processed: nat, lookups: nat, ids: nat)
    returns (outcome: Outcome, limitHit': bool, processed': nat, lookups': nat)
    requires p.Valid() && i < |p.tokens| && tok == p.tokens[i]
    requires p == InputOf(message, p.tokens, limit, env) && ids == |EntriesOf(p, i)|
    requires limitHit <==> WellFormedBefore(p, i) > limit
    requires !limitHit ==> processed == WellFormedBefore(p, i) && lookups == LookupsBefore(p, i)
    ensures outcome == OutcomeOf(p, i)
    ensures limitHit' <==> WellFormedBefore(p, i + 1) > limit
    ensures !limitHit' ==> processed' == WellFormedBefore(p, i + 1) && lookups' == LookupsBefore(p, i + 1)
  {
    limitHit', processed', lookups' := limitHit, processed, lookups;
    assert NextToken(message, p.tokens, i);
    var text := message[tok.start..tok.end];
    if limitHit {
      return Kept(None), limitHit', processed', lookups';
    }
    if tok.unclosed {
      return Kept(Some(Unclosed(text))), limitHit', processed', lookups';
    }
    var body := ParseTokenBody(message[tok.start + |TOKEN_PREFIX|..tok.end - 1], env.unescape);
    assert body == p.body(i);
    if body.BadBody? {
      return Kept(Some(BadToken(text, body.error))), limitHit', processed', lookups';
    }
    processed' := processed + 1;
    if processed' > limit {
      limitHit' := true;
      return Kept(Some(LimitReached(limit))), limitHit', processed', lookups';
    }
    outcome := Normalize(env, body.token, text, lookups, ids);
    if body.token.resolver == Email && env.resolver.Some? {
      lookups' := lookups + 1;
    }
  }

  /** What parsing with these arguments gives: the rewriting of the scanned tokens. */
  ghost predicate IsParsed(message: string, raw: RawMentions, limit: nat, env: Env, r: Result) {
    exists tokens :: Scanned(message, limit, tokens) && r == ParsedFrom(InputOf(message, tokens, limit, env), raw)
  }

  ghost function ParsedFrom(p: Input, raw: RawMentions): Result
    requires p.Valid()
  {
    Result(Rewritten(p), MergeMentions(raw, EntriesOf(p, |p.tokens|)), ErrorsOf(p, |p.tokens|))
  }

  method Parse(message: string, raw: RawMentions, parseEnabled: bool, limit: nat, env: Env) returns (r: Result)
    ensures !parseEnabled ==> r == Result(message, raw, [])
    ensures parseEnabled ==> IsParsed(message, raw, limit, env, r)
  {
    if !parseEnabled {
      return Result(message, raw, []);
    }
    var tokens := Scan(message, limit);
    ghost var p := InputOf(message, tokens, limit, env);
    assert p.Valid();
    if tokens == [] {
      return Result(message, raw, []);
    }
    var errs: seq<ParseError> := [];
    var parsed: seq<RawEntry> := [];
    var buf := "";
    var cursor := 0;
    var processed, lookups := 0, 0;
    var limitHit := false;
    for i := 0 to |tokens|
      invariant cursor == EndOf(tokens, i) <= |message|
      invariant buf == Spliced(p, i) && parsed == EntriesOf(p, i) && errs == ErrorsOf(p, i)
      invariant limitHit <==> WellFormedBefore(p, i) > limit
      invariant !limitHit ==> processed == WellFormedBefore(p, i) && lookups == LookupsBefore(p, i)
    {
      var tok := tokens[i];
      assert NextToken(message, tokens, i);
      var outcome;
      outcome, limitHit, processed, lookups :=
        ClassifyToken(p, i, message, tok, limit, env, limitHit, processed, lookups, |parsed|);
      buf := buf + message[cursor..tok.start] + outcome.Text(message[tok.start..tok.end]);
      errs := errs + outcome.NewErrors();
      parsed := parsed + outcome.NewEntries();
      cursor := tok.end;
    }
    buf := buf + message[cursor..];
    return Result(buf, MergeMentions(raw, parsed), errs);
  }

  // ---- what the rewriting keeps ----------------------------------------------------------

  /** The limit bounds the entries and the directory lookups, and an entry or a lookup is always
      paid for by a well-formed token. */
  lemma {:induction false} LimitBoundsWork(p: Input, n: nat)
    requires p.Valid() && n <= |p.tokens|
    ensures |EntriesOf(p, n)| <= WellFormedBefore(p, n) && |EntriesOf(p, n)| <= p.limit
    ensures LookupsBefore(p, n) <= WellFormedBefore(p, n) && LookupsBefore(p, n) <= p.limit
  {
    if n > 0 {
      LimitBoundsWork(p, n - 1);
      if WellFormedBefore(p, n - 1) < p.limit {
      } else {
        LimitBoundsWork(p, n - 1);
        assert OutcomeOf(p, n - 1).Kept? && !LooksUp(p, n - 1);
      }
    }
  }

  ghost predicate HasLimitError(errs: seq<ParseError>) {
    exists i :: 0 <= i < |errs| && errs[i].LimitReached?
  }

  ghost predicate OneLimitErrorAtMost(errs: seq<ParseError>) {
    forall i, j :: 0 <= i < j < |errs| ==> !errs[i].LimitReached? || !errs[j].LimitReached?
  }

  /** The limit is reported once and only when it is exceeded; while it is not, every token ends
      as exactly one entry or one error. */
  lemma EveryTokenAccountedFor(p: Input, n: nat)
    requires p.Valid() && n <= |p.tokens|
    ensures OneLimitErrorAtMost(ErrorsOf(p, n))
    ensures HasLimitError(ErrorsOf(p, n)) <==> WellFormedBefore(p, n) > p.limit
    ensures WellFormedBefore(p, n) <= p.limit ==> |EntriesOf(p, n)| + |ErrorsOf(p, n)| == n
  {
    LimitIsReportedOnce(p, n);
    if WellFormedBefore(p, n) <= p.limit { OneOutcomeEach(p, n); }
  }

  lemma {:induction false} LimitIsReportedOnce(p: Input, n: nat)
    requires p.Valid() && n <= |p.tokens|
    ensures OneLimitErrorAtMost(ErrorsOf(p, n))
    ensures HasLimitError(ErrorsOf(p, n)) <==> WellFormedBefore(p, n) > p.limit
  {
    if n > 0 {
      LimitIsReportedOnce(p, n - 1);
      OutcomeOfCount(p, n - 1);
      ErrorsStep(p, n - 1);
      LimitStep(ErrorsOf(p, n - 1), OutcomeOf(p, n - 1), WellFormedBefore(p, n - 1), WellFormedBefore(p, n), p.limit);
    }
  }

  lemma LimitStep(errs: seq<ParseError>, o: Outcome, wellFormed: nat, wellFormed': nat, limit: nat)
    requires OneLimitErrorAtMost(errs) && (HasLimitError(errs) <==> wellFormed > limit)
    requires wellFormed <= wellFormed' <= wellFormed + 1
    requires o.Kept? && o.error.Some? && o.error.value.LimitReached? <==> wellFormed' == wellFormed + 1 == limit + 1
    ensures OneLimitErrorAtMost(errs + o.NewErrors())
    ensures HasLimitError(errs + o.NewErrors()) <==> wellFormed' > limit
  {
    var more := errs + o.NewErrors();
    if i :| 0 <= i < |errs| && errs[i].LimitReached? {
      assert more[i].LimitReached?;
    }
    if o.NewErrors() != [] {
      assert more[|errs|] == o.NewErrors()[0];
    }
  }

  lemma {:induction false} OneOutcomeEach(p: Input, n: nat)
    requires p.Valid() && n <= |p.tokens| && WellFormedBefore(p, n) <= p.limit
    ensures |EntriesOf(p, n)| + |ErrorsOf(p, n)| == n
  {
    if n > 0 {
      OutcomeOfCount(p, n - 1);
      OneOutcomeEach(p, n - 1);
      EntriesStep(p, n - 1);
      ErrorsStep(p, n - 1);
    }
  }

  lemma ErrorsStep(p: Input, k: nat)
    requires p.Valid() && k < |p.tokens|
    ensures ErrorsOf(p, k + 1) == ErrorsOf(p, k) + OutcomeOf(p, k).NewErrors()
  {}

  lemma OutcomeOfCount(p: Input, k: nat)
    requires p.Valid() && k < |p.tokens|
    ensures var o := OutcomeOf(p, k);
            var before, after := WellFormedBefore(p, k), WellFormedBefore(p, k + 1);
            && before <= after <= before + 1
            && (o.Kept? && o.error.Some? && o.error.value.LimitReached? <==> after == before + 1 == p.limit + 1)
            && (after <= p.limit ==> |o.NewEntries()| + |o.NewErrors()| == 1)
  {
    assert NextToken(p.message, p.tokens, k);
  }

  /** The text between token k and the token before it, or the start of the message. */
  ghost function Gap(p: Input, k: nat): string
    requires p.Valid() && k < |p.tokens|
  {
    assert NextToken(p.message, p.tokens, k);
    p.message[EndOf(p.tokens, k)..p.tokens[k].start]
  }

  /** Where the k-th piece begins in the rewritten message. */
  ghost function Offset(p: Input, k: nat): nat
    requires p.Valid() && k < |p.tokens|
  {
    |Spliced(p, k)| + |Gap(p, k)|
  }

  lemma {:induction false} SplicedGrows(p: Input, i: nat, j: nat)
    requires p.Valid() && i <= j <= |p.tokens|
    ensures Spliced(p, i) <= Spliced(p, j)
    decreases j
  {
    if i < j {
      SplicedGrows(p, i, j - 1);
      SplicedStep(p, j - 1);
      StillPrefix(Spliced(p, i), Spliced(p, j - 1), Gap(p, j - 1) + Piece(p, j - 1));
    }
  }

  lemma StillPrefix<T>(a: seq<T>, b: seq<T>, more: seq<T>)
    requires a <= b
    ensures a <= b + more
  {}

  lemma SplicedStep(p: Input, k: nat)
    requires p.Valid() && k < |p.tokens|
    ensures Spliced(p, k + 1) == Spliced(p, k) + Gap(p, k) + Piece(p, k)
    ensures Spliced(p, k + 1) == Spliced(p, k) + (Gap(p, k) + Piece(p, k))
  {}

  lemma PartsInPlace(before: string, gap: string, piece: string, out: string)
    requires before + gap + piece <= out
    ensures OccursAt(out, gap, |before|) && OccursAt(out, piece, |before| + |gap|)
  {
    var s := before + gap + piece;
    assert out[|before|..|before| + |gap|] == s[|before|..|before| + |gap|] == gap;
    assert out[|before| + |gap|..|s|] == s[|before| + |gap|..] == piece;
  }

  /** The rewritten message token by token: where the piece before ends, the gap before token k
      stands exactly as it was, then piece k; Spliced(k + 1) ends there. */
  lemma {:induction false} RewritesOnlyTokens(p: Input, k: nat)
    requires p.Valid() && k < |p.tokens|
    ensures OccursAt(Rewritten(p), Gap(p, k), |Spliced(p, k)|)
    ensures OccursAt(Rewritten(p), Piece(p, k), Offset(p, k))
    ensures Offset(p, k) + |Piece(p, k)| == |Spliced(p, k + 1)| <= |Rewritten(p)|
  {
    SplicedStep(p, k);
    SplicedGrows(p, k + 1, |p.tokens|);
    RewrittenBegins(p);
    PartsInPlace(Spliced(p, k), Gap(p, k), Piece(p, k), Rewritten(p));
  }

  /** Behind the last piece stands the untouched rest of the message. */
  lemma RewrittenBegins(p: Input)
    requires p.Valid()
    ensures Spliced(p, |p.tokens|) <= Rewritten(p)
    ensures EndOf(p.tokens, |p.tokens|) <= |p.message|
    ensures Rewritten(p)[|Spliced(p, |p.tokens|)|..] == p.message[EndOf(p.tokens, |p.tokens|)..]
  {
    if p.tokens != [] { assert NextToken(p.message, p.tokens, |p.tokens| - 1); }
  }

  /** The entries are numbered as the placeholders are: a replaced token's placeholder names the
      entry at that token's place in the list, and the i-th entry carries the i-th fresh id. */
  lemma {:induction false} PlaceholderNamesItsEntry(p: Input, k: nat, n: nat)
    requires p.Valid() && k < n <= |p.tokens| && OutcomeOf(p, k).Replaced?
    ensures |EntriesOf(p, k)| < |EntriesOf(p, n)|
    ensures var e := EntriesOf(p, n)[|EntriesOf(p, k)|];
            && e == OutcomeOf(p, k).entry
            && e.Parsed? && e.mentionId == p.env.newMentionId(|EntriesOf(p, k)|)
            && Piece(p, k) == Mark(e.mentionId)
  {
    ReplacedEntry(p, k);
    EntriesStep(p, k);
    EntriesGrow(p, k + 1, n);
  }

  lemma {:induction false} EntriesGrow(p: Input, i: nat, j: nat)
    requires p.Valid() && i <= j <= |p.tokens|
    ensures EntriesOf(p, i) <= EntriesOf(p, j)
    decreases j
  {
    if i < j {
      EntriesGrow(p, i, j - 1);
      EntriesStep(p, j - 1);
      StillPrefix(EntriesOf(p, i), EntriesOf(p, j - 1), OutcomeOf(p, j - 1).NewEntries());
    }
  }

  lemma ReplacedEntry(p: Input, k: nat)
    requires p.Valid() && k < |p.tokens| && OutcomeOf(p, k).Replaced?
    ensures var e := OutcomeOf(p, k).entry;
            && e.Parsed? && e.mentionId == p.env.newMentionId(|EntriesOf(p, k)|)
            && Piece(p, k) == Mark(e.mentionId)
  {
    assert NextToken(p.message, p.tokens, k);
  }

  lemma EntriesStep(p: Input, k: nat)
    requires p.Valid() && k < |p.tokens|
    ensures EntriesOf(p, k + 1) == EntriesOf(p, k) + OutcomeOf(p, k).NewEntries()
  {}

  /** Every entry comes from some replaced token. */
  lemma {:induction false} EntryHasToken(p: Input, i: nat, n: nat) returns (k: nat)
    requires p.Valid() && n <= |p.tokens| && i < |EntriesOf(p, n)|
    ensures k < n && OutcomeOf(p, k).Replaced? && |EntriesOf(p, k)| == i
    decreases n
  {
    if i < |EntriesOf(p, n - 1)| {
      k := EntryHasToken(p, i, n - 1);
    } else {
      k := n - 1;
    }
  }

  /** A message nothing was replaced in comes out as it went in. */
  lemma {:induction false} NothingReplacedNothingChanged(p: Input)
    requires p.Valid() && EntriesOf(p, |p.tokens|) == []
    ensures Rewritten(p) == p.message
  {
    SplicedIsPrefix(p, |p.tokens|);
  }

  lemma {:induction false} SplicedIsPrefix(p: Input, k: nat)
    requires p.Valid() && k <= |p.tokens| && EntriesOf(p, k) == []
    ensures EndOf(p.tokens, k) <= |p.message| && Spliced(p, k) == p.message[..EndOf(p.tokens, k)]
  {
    if k > 0 {
      EntriesStep(p, k - 1);
      SplicedIsPrefix(p, k - 1);
      SplicedStep(p, k - 1);
      KeptPiece(p, k - 1);
    }
  }

  /** A kept token together with the gap before it is the message from one end to the next. */
  lemma KeptPiece(p: Input, k: nat)
    requires p.Valid() && k < |p.tokens| && OutcomeOf(p, k).Kept?
    ensures EndOf(p.tokens, k) <= EndOf(p.tokens, k + 1) <= |p.message|
    ensures p.message[..EndOf(p.tokens, k)] + (Gap(p, k) + Piece(p, k)) == p.message[..EndOf(p.tokens, k + 1)]
  {
    assert NextToken(p.message, p.tokens, k);
    Rejoin(p.message, EndOf(p.tokens, k), p.tokens[k].start, p.tokens[k].end);
  }

  lemma Rejoin(s: string, i: nat, j: nat, k: nat)
    requires i <= j <= k <= |s|
    ensures s[..k] == s[..i] + (s[i..j] + s[j..k])
  {}

  // ---- the caller's own entries --------------------------------------------------------------------

  /** What the caller sent is still there: an unreadable array as it was, entries in front and in order. */
  ghost predicate Survives(raw: RawMentions, out: RawMentions) {
    match raw
    case NoMentions => true
    case Unreadable(_) => out == raw
    case Entries(entries) => out.Entries? && entries <= out.entries
  }

  /** No token of the message becomes an entry. */
  ghost predicate NothingParsed(message: string, limit: nat, env: Env) {
    forall tokens, k: nat :: Scanned(message, limit, tokens) && k < |tokens| ==>
      IsKept(InputOf(message, tokens, limit, env), k)
  }

  ghost predicate IsKept(p: Input, k: nat)
    requires p.Valid() && k < |p.tokens|
  {
    OutcomeOf(p, k).Kept?
  }

  lemma {:induction false} NoEntryIffKept(p: Input, n: nat)
    requires p.Valid() && n <= |p.tokens|
    ensures EntriesOf(p, n) == [] <==> forall k: nat :: k < n ==> IsKept(p, k)
  {
    if n > 0 {
      NoEntryIffKept(p, n - 1);
      EntriesStep(p, n - 1);
      assert IsKept(p, n - 1) <==> OutcomeOf(p, n - 1).NewEntries() == [];
    }
  }

  lemma ParsedIsDetermined(message: string, raw: RawMentions, limit: nat, env: Env, r: Result, tokens: seq<TokenSpan>)
    requires IsParsed(message, raw, limit, env, r) && Scanned(message, limit, tokens)
    ensures r == ParsedFrom(InputOf(message, tokens, limit, env), raw)
  {
    var found :| Scanned(message, limit, found) && r == ParsedFrom(InputOf(message, found, limit, env), raw);
    ScanIsDetermined(message, limit, tokens, found);
  }

  /** Exactly when parsing keeps what the caller sent: when the array can be read, or nothing is parsed. */
  lemma CallersEntriesSurviveExactly(message: string, raw: RawMentions, limit: nat, env: Env, r: Result)
    requires IsParsed(message, raw, limit, env, r)
    ensures Survives(raw, r.mentions) <==> !raw.Unreadable? || NothingParsed(message, limit, env)
  {
    var tokens :| Scanned(message, limit, tokens) && r == ParsedFrom(InputOf(message, tokens, limit, env), raw);
    var p := InputOf(message, tokens, limit, env);
    NoEntryIffKept(p, |tokens|);
    if EntriesOf(p, |tokens|) == [] {
      forall other, k: nat | Scanned(message, limit, other) && k < |other|
        ensures IsKept(InputOf(message, other, limit, env), k)
      {
        ScanIsDetermined(message, limit, tokens, other);
      }
    }
  }

  /** Nothing of what the caller sent shows in the message or the errors: an unreadable array is replaced
      without a word. */
  lemma RawIsNotReported(message: string, raw: RawMentions, raw': RawMentions, limit: nat, env: Env,
                         r: Result, r': Result)
    requires IsParsed(message, raw, limit, env, r) && IsParsed(message, raw', limit, env, r')
    ensures r.message == r'.message && r.errors == r'.errors
  {
    var a :| Scanned(message, limit, a) && r == ParsedFrom(InputOf(message, a, limit, env), raw);
    ParsedIsDetermined(message, raw', limit, env, r', a);
  }

  const ALL_TOKEN := "@mention[all]"

  lemma AllTokenScanned(limit: nat)
    ensures Scanned(ALL_TOKEN, limit, [TokenSpan(0, |ALL_TOKEN|, false)])
  {
    var t := TokenSpan(0, |ALL_TOKEN|, false);
    assert ALL_TOKEN[0..|TOKEN_PREFIX|] == TOKEN_PREFIX;
    assert ALL_TOKEN[|TOKEN_PREFIX|..] == "all]";
    assert IsToken(ALL_TOKEN, t) && NextToken(ALL_TOKEN, [t], 0);
  }

  /** An input where an unreadable array is lost. */
  lemma UnreadableIsReplaced(text: string, limit: nat, env: Env, r: Result)
    requires limit > 0 && IsParsed(ALL_TOKEN, Unreadable(text), limit, env, r)
    ensures r.mentions == Entries([Parsed(env.newMentionId(0), "all", None)]) && r.errors == []
  {
    var tokens := [TokenSpan(0, |ALL_TOKEN|, false)];
    AllTokenScanned(limit);
    ParsedIsDetermined(ALL_TOKEN, Unreadable(text), limit, env, r, tokens);
    AllTokenFrom(InputOf(ALL_TOKEN, tokens, limit, env), Unreadable(text), env);
  }

  lemma AllTokenFrom(p: Input, raw: RawMentions, env: Env)
    requires p.limit > 0 && p == InputOf(ALL_TOKEN, [TokenSpan(0, |ALL_TOKEN|, false)], p.limit, env) && p.Valid()
    ensures var r := ParsedFrom(p, raw);
            && (raw.Unreadable? ==> r.mentions == Entries([Parsed(env.newMentionId(0), "all", None)]))
            && r.errors == []
  {
    AllTokenParsed(p, env);
    assert [] + EntriesOf(p, 1) == EntriesOf(p, 1);
  }

  lemma AllTokenParsed(p: Input, env: Env)
    requires p.limit > 0 && p == InputOf(ALL_TOKEN, [TokenSpan(0, |ALL_TOKEN|, false)], p.limit, env) && p.Valid()
    ensures EntriesOf(p, 1) == [Parsed(env.newMentionId(0), "all", None)] && ErrorsOf(p, 1) == []
  {
    AllTokenReplaced(p, env);
    EntriesStep(p, 0);
    ErrorsStep(p, 0);
  }

  lemma AllTokenBody(unescape: Unescape)
    ensures BodyAt(ALL_TOKEN, [TokenSpan(0, |ALL_TOKEN|, false)], unescape, 0) == Body(ParsedToken(All, "", ""))
  {
    AllTokenScanned(1);
    assert NextToken(ALL_TOKEN, [TokenSpan(0, |ALL_TOKEN|, false)], 0);
    assert ALL_TOKEN[|TOKEN_PREFIX|..|ALL_TOKEN| - 1] == "all";
  }

  lemma AllTokenReplaced(p: Input, env: Env)
    requires p.limit > 0 && p == InputOf(ALL_TOKEN, [TokenSpan(0, |ALL_TOKEN|, false)], p.limit, env) && p.Valid()
    ensures OutcomeOf(p, 0) == Replaced(Parsed(env.newMentionId(0), "all", None))
  {
    AllTokenBody(env.unescape);
    assert p.body(0) == Body(ParsedToken(All, "", ""));
  }
}
