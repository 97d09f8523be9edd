/** What becomes of a token, said from the text of the message: the grammar of token bodies, the limit,
    and what the directory answers. */
module MentionMeaning {
  import opened MentionWire
  import opened MentionParser
  import opened MentionRewriting
  import opened Wrappers

  /** The input of a rewriting is what a scan found in the message. */
  ghost predicate FromMessage(p: Input) {
    p.Valid() && p == InputOf(p.message, p.tokens, p.limit, p.env)
  }

  /** The k-th token as it stands in the message. */
  ghost function Token(p: Input, k: nat): string
    requires p.Valid() && k < |p.tokens|
  {
    assert NextToken(p.message, p.tokens, k);
    p.message[p.tokens[k].start..p.tokens[k].end]
  }

  /** The text between its brackets. */
  ghost function Inside(p: Input, k: nat): string
    requires p.Valid() && k < |p.tokens| && !p.tokens[k].unclosed
  {
    assert NextToken(p.message, p.tokens, k);
    p.message[p.tokens[k].start + |TOKEN_PREFIX|..p.tokens[k].end - 1]
  }

  /** The k-th token is closed, and its text is one way of writing `t`. */
  ghost predicate Says(p: Input, k: nat, t: ParsedToken)
    requires p.Valid() && k < |p.tokens|
  {
    !p.tokens[k].unclosed && Writes(Inside(p, k), t, p.env.unescape)
  }

  ghost predicate SaysSomething(p: Input, k: nat)
    requires p.Valid() && k < |p.tokens|
  {
    exists t :: Says(p, k, t)
  }

  lemma SaysWhatIsParsed(p: Input, k: nat, t: ParsedToken)
    requires FromMessage(p) && k < |p.tokens|
    ensures Says(p, k, t) <==> !p.tokens[k].unclosed && p.body(k) == Body(t)
  {
    assert NextToken(p.message, p.tokens, k);
    if !p.tokens[k].unclosed { ParseInvertsWrite(Inside(p, k), t, p.env.unescape); }
  }

  /** The tokens that count against the limit are exactly the closed ones that say something. */
  lemma WellFormedExactly(p: Input, k: nat)
    requires FromMessage(p) && k < |p.tokens|
    ensures WellFormed(p, k) <==> SaysSomething(p, k)
    ensures WellFormedBefore(p, 0) == 0
    ensures WellFormedBefore(p, k + 1) == WellFormedBefore(p, k) + if SaysSomething(p, k) then 1 else 0
  {
    if WellFormed(p, k) { SaysWhatIsParsed(p, k, p.body(k).token); }
    if t :| Says(p, k, t) { SaysWhatIsParsed(p, k, t); }
  }

  /** The entry of the k-th token stands in the mentions of the whole message, with a fresh id, and the
      message has its placeholder in place of the token. */
  ghost predicate Mentions(p: Input, k: nat, mentionType: string, data: Option<MentionData>)
    requires p.Valid() && k < |p.tokens|
  {
    var all, i := EntriesOf(p, |p.tokens|), |EntriesOf(p, k)|;
    && i < |all| && all[i] == Parsed(p.env.newMentionId(i), mentionType, data)
    && Piece(p, k) == "@{mention:" + p.env.newMentionId(i) + "}"
    && ErrorsOf(p, k + 1) == ErrorsOf(p, k)
  }

  /** The k-th token stays in the message as it was, gives no entry, and these errors. */
  ghost predicate Stays(p: Input, k: nat, errors: seq<ParseError>)
    requires p.Valid() && k < |p.tokens|
  {
    && Piece(p, k) == Token(p, k) && EntriesOf(p, k + 1) == EntriesOf(p, k)
    && ErrorsOf(p, k + 1) == ErrorsOf(p, k) + errors
  }

  lemma ReplacedMentions(p: Input, k: nat, mentionType: string, data: Option<MentionData>)
    requires p.Valid() && k < |p.tokens|
    requires OutcomeOf(p, k) == Replaced(Parsed(p.env.newMentionId(|EntriesOf(p, k)|), mentionType, data))
    ensures Mentions(p, k, mentionType, data)
  {
    PlaceholderNamesItsEntry(p, k, |p.tokens|);
    NoNewErrors(p, k);
    MarkText(p.env.newMentionId(|EntriesOf(p, k)|));
  }

  lemma NoNewErrors(p: Input, k: nat)
    requires p.Valid() && k < |p.tokens| && OutcomeOf(p, k).Replaced?
    ensures ErrorsOf(p, k + 1) == ErrorsOf(p, k)
  {
    ErrorsStep(p, k);
    assert OutcomeOf(p, k).NewErrors() == [];
  }

  lemma MarkText(id: string)
    ensures Mark(id) == "@{mention:" + id + "}"
  {
    assert "@" + PLACEHOLDER_CORE == "@{mention:";
    assert "@" + (PLACEHOLDER_CORE + id + "}") == "@" + PLACEHOLDER_CORE + id + "}";
  }

  lemma KeptStays(p: Input, k: nat)
    requires p.Valid() && k < |p.tokens| && OutcomeOf(p, k).Kept?
    ensures Stays(p, k, OutcomeOf(p, k).NewErrors())
  {
    assert NextToken(p.message, p.tokens, k);
    EntriesStep(p, k);
    ErrorsStep(p, k);
  }

  /** `@mention[huid:value;name]` mentions the user `value` under that name, without any lookup. */
  lemma HuidMentions(p: Input, k: nat, t: ParsedToken)
    requires FromMessage(p) && k < |p.tokens| && Says(p, k, t)
    requires t.resolver == Huid && WellFormedBefore(p, k) < p.limit
    ensures Mentions(p, k, "user", Some(MentionData(t.value, t.displayName)))
  {
    SaysWhatIsParsed(p, k, t);
    ReplacedMentions(p, k, "user", Some(MentionData(t.value, t.displayName)));
  }

  /** `@mention[all]` mentions everybody and carries no data. */
  lemma AllMentions(p: Input, k: nat, t: ParsedToken)
    requires FromMessage(p) && k < |p.tokens| && Says(p, k, t)
    requires t.resolver == All && WellFormedBefore(p, k) < p.limit
    ensures Mentions(p, k, "all", None)
  {
    SaysWhatIsParsed(p, k, t);
    ReplacedMentions(p, k, "all", None);
  }

  /** What the directory answers to the k-th token's value; None when there is no directory. */
  ghost function Directory(p: Input, k: nat, value: string): Option<Lookup>
    requires p.Valid() && k < |p.tokens|
  {
    match p.env.resolver
    case None => None
    case Some(resolve) => Some(resolve(LookupsBefore(p, k), value))
  }

  /** `@mention[email:value;name]` mentions the user the directory finds, under the written name, or under
      the found one when none is written. */
  lemma EmailMentions(p: Input, k: nat, t: ParsedToken, huid: string, name: string)
    requires FromMessage(p) && k < |p.tokens| && Says(p, k, t)
    requires t.resolver == Email && WellFormedBefore(p, k) < p.limit
    requires Directory(p, k, t.value) == Some(Found(huid, name))
    ensures t.displayName != "" ==> Mentions(p, k, "user", Some(MentionData(huid, t.displayName)))
    ensures t.displayName == "" ==> Mentions(p, k, "user", Some(MentionData(huid, name)))
  {
    SaysWhatIsParsed(p, k, t);
    ReplacedMentions(p, k, "user", Some(MentionData(huid, if t.displayName == "" then name else t.displayName)));
  }

  /** Without a directory, or when the lookup fails, an email token stays, and its error says why. */
  lemma UnknownEmailStays(p: Input, k: nat, t: ParsedToken)
    requires FromMessage(p) && k < |p.tokens| && Says(p, k, t)
    requires t.resolver == Email && WellFormedBefore(p, k) < p.limit
    requires Directory(p, k, t.value).None? || Directory(p, k, t.value).value.LookupFailed?
    ensures Stays(p, k, [LookupError(Token(p, k), t.value, WhyUnknown(p, k, t.value))])
  {
    SaysWhatIsParsed(p, k, t);
    assert OutcomeOf(p, k) == Kept(Some(LookupError(Token(p, k), t.value, WhyUnknown(p, k, t.value)))) by {
      assert NextToken(p.message, p.tokens, k);
    }
    KeptStays(p, k);
  }

  ghost function WhyUnknown(p: Input, k: nat, value: string): string
    requires p.Valid() && k < |p.tokens|
    requires Directory(p, k, value).None? || Directory(p, k, value).value.LookupFailed?
  {
    if Directory(p, k, value).None? then "no resolver available" else Directory(p, k, value).value.cause
  }

  /** A lookup is made for exactly the email tokens within the limit, when there is a directory. */
  lemma LooksUpExactly(p: Input, k: nat)
    requires FromMessage(p) && k < |p.tokens|
    ensures LookupsBefore(p, k + 1) == LookupsBefore(p, k) + 1 <==>
            && WellFormedBefore(p, k) < p.limit && p.env.resolver.Some?
            && exists t :: Says(p, k, t) && t.resolver == Email
  {
    if WellFormed(p, k) { SaysWhatIsParsed(p, k, p.body(k).token); }
    if t :| Says(p, k, t) && t.resolver == Email { SaysWhatIsParsed(p, k, t); }
  }

  /** An unclosed token stays and is reported. */
  lemma UnclosedStays(p: Input, k: nat)
    requires FromMessage(p) && k < |p.tokens| && p.tokens[k].unclosed && WellFormedBefore(p, k) <= p.limit
    ensures Stays(p, k, [Unclosed(Token(p, k))])
  {
    assert NextToken(p.message, p.tokens, k);
    KeptStays(p, k);
  }

  lemma BodyIsParsed(p: Input, k: nat)
    requires FromMessage(p) && k < |p.tokens| && !p.tokens[k].unclosed
    ensures p.body(k) == ParseTokenBody(Inside(p, k), p.env.unescape)
  {
    assert NextToken(p.message, p.tokens, k);
  }

  /** A closed token that says nothing stays and is reported with a reason that is true of it. */
  lemma MalformedStays(p: Input, k: nat) returns (why: BodyError)
    requires FromMessage(p) && k < |p.tokens| && !p.tokens[k].unclosed && WellFormedBefore(p, k) <= p.limit
    requires !SaysSomething(p, k)
    ensures Explains(why, Inside(p, k), p.env.unescape)
    ensures Stays(p, k, [BadToken(Token(p, k), why)])
  {
    WellFormedExactly(p, k);
    BodyIsParsed(p, k);
    why := p.body(k).error;
    RejectionIsExplained(Inside(p, k), p.env.unescape);
    assert OutcomeOf(p, k) == Kept(Some(BadToken(Token(p, k), why))) by {
      assert NextToken(p.message, p.tokens, k);
    }
    KeptStays(p, k);
  }

  /** The first token that says something past the limit stays and is reported, all after it stay in silence. */
  lemma PastTheLimitStays(p: Input, k: nat)
    requires FromMessage(p) && k < |p.tokens|
    ensures WellFormedBefore(p, k) > p.limit ==> Stays(p, k, [])
    ensures WellFormedBefore(p, k) == p.limit && SaysSomething(p, k) ==> Stays(p, k, [LimitReached(p.limit)])
  {
    assert NextToken(p.message, p.tokens, k);
    WellFormedExactly(p, k);
    if OutcomeOf(p, k).Kept? { KeptStays(p, k); }
  }

  /** The mentions of the result: the caller's own in front, the parsed ones behind, and what the caller
      sent untouched when there are none. */
  lemma ResultOfParse(message: string, raw: RawMentions, limit: nat, env: Env, r: Result, tokens: seq<TokenSpan>)
    requires IsParsed(message, raw, limit, env, r) && Scanned(message, limit, tokens)
    ensures var p := InputOf(message, tokens, limit, env);
            && FromMessage(p) && r.message == Rewritten(p) && r.errors == ErrorsOf(p, |tokens|)
            && Appended(raw, EntriesOf(p, |tokens|), r.mentions)
  {
    ParsedIsDetermined(message, raw, limit, env, r, tokens);
    MergedIsAppended(raw, EntriesOf(InputOf(message, tokens, limit, env), |tokens|));
  }

  ghost predicate Appended(raw: RawMentions, parsed: seq<RawEntry>, out: RawMentions) {
    if parsed == [] then out == raw
    else out.Entries? && (raw.Entries? ==> out.entries == raw.entries + parsed)
                      && (!raw.Entries? ==> out.entries == parsed)
  }

  lemma MergedIsAppended(raw: RawMentions, parsed: seq<RawEntry>)
    ensures Appended(raw, parsed, MergeMentions(raw, parsed))
  {
    assert [] + parsed == parsed;
  }
}
