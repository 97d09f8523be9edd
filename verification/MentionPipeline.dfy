/** The two halves of mention handling together: what inline parsing produced, seen through the
    length cap applied to the message afterwards. */
module MentionPipeline {
  import opened Text
  import opened MentionWire
  import opened MentionParser
  import opened MentionRewriting
  import opened Truncation
  import opened MentionFilter
  import opened MentionIds

  // ---- fresh ids are fresh in the rewritten message too --------------------------------------------

  predicate NoBraces(s: string) {
    '{' !in s && '}' !in s
  }

  /** The ids drawn are different, without braces, and not those of mentions the message shows already. */
  ghost predicate FreshIds(p: Input) {
    && (forall i: nat :: i < |p.tokens| ==> FreshId(p.message, p.env.newMentionId(i)))
    && forall i: nat, j: nat :: i < j < |p.tokens| ==> p.env.newMentionId(i) != p.env.newMentionId(j)
  }

  ghost predicate FreshId(message: string, id: string) {
    id != "" && NoBraces(id) && !Contains(message, Placeholder(id))
  }

  /** Braces stand at the two ends only. */
  ghost predicate BracesAtEnds(ph: string) {
    && ph != "" && ph[0] == '{' && ph[|ph| - 1] == '}'
    && (forall k :: 0 < k < |ph| ==> ph[k] != '{') && forall k :: 0 <= k < |ph| - 1 ==> ph[k] != '}'
  }

  lemma BracesOf(id: string)
    requires NoBraces(id)
    ensures BracesAtEnds(Placeholder(id))
  {}

  /** No mention begins in `done`, which ends in a brace or is empty, and ends in the text behind it. */
  lemma OccursOnOneSide(done: string, text: string, id: string, i: int)
    requires NoBraces(id) && (done == "" || done[|done| - 1] == '}')
    requires OccursAt(done + text, Placeholder(id), i)
    ensures OccursAt(done, Placeholder(id), i) || OccursAt(text, Placeholder(id), i - |done|)
  {
    var ph := Placeholder(id);
    BracesOf(id);
    if i + |ph| <= |done| {
      OccursInPrefix(done + text, done, |done|, ph, i);
    } else if i >= |done| {
      OccursInRest(done + text, |done|, ph, i);
      assert (done + text)[|done|..] == text;
    } else {
      PartOf(done + text, ph, i, |done| - 1 - i);
    }
  }

  /** A new mark shows no mention but its own. */
  lemma OccursBeforeMark(before: string, other: string, id: string, i: int)
    requires NoBraces(id) && NoBraces(other) && OccursAt(before + Mark(other), Placeholder(id), i)
    ensures OccursAt(before, Placeholder(id), i) || (id == other && i == |before| + 1)
  {
    var ph, mark, all := Placeholder(id), Placeholder(other), before + Mark(other);
    var at := |before| + 1;
    BracesOf(id);
    BracesOf(other);
    assert all[at..] == mark && all[|before|] == '@';
    if i + |ph| <= |before| {
      OccursInPrefix(all, before, |before|, ph, i);
    } else if i == at {
      SameMark(all, mark, ph, at);
      assert mark[|PLACEHOLDER_CORE|..|mark| - 1] == other && ph[|PLACEHOLDER_CORE|..|ph| - 1] == id;
    } else {
      NotAcrossMark(all, mark, ph, at, i);
    }
  }

  lemma SameMark(all: string, mark: string, ph: string, at: nat)
    requires BracesAtEnds(ph) && BracesAtEnds(mark) && at <= |all| && all[at..] == mark && OccursAt(all, ph, at)
    ensures ph == mark
  {
    PartOf(all, ph, at, |ph| - 1);
    assert all[at + (|ph| - 1)] == mark[|ph| - 1];
    assert all[at..at + |ph|] == mark[..|ph|];
  }

  lemma NotAcrossMark(all: string, mark: string, ph: string, at: nat, i: int)
    requires BracesAtEnds(ph) && BracesAtEnds(mark) && 0 < at <= |all| && all[at..] == mark && all[at - 1] == '@'
    requires OccursAt(all, ph, i)
    ensures i == at || i + |ph| < at
  {
    assert all[at] == mark[0] && forall k :: at < k < |all| ==> all[k] == mark[k - at];
    PartOf(all, ph, i, 0);
    PartOf(all, ph, i, |ph| - 1);
    PartOf(all, ph, i, if i < at < i + |ph| then at - i else 0);
  }

  /** The rewritten message so far: what ends in the last mark, then text of the message; and where in it the
      placeholder of token k stands. */
  ghost predicate MarkedSoFar(p: Input, k: nat, n: nat, done: string, from: nat)
    requires p.Valid() && k < |p.tokens| && n <= |p.tokens|
  {
    && from <= EndOf(p.tokens, n) <= |p.message|
    && Spliced(p, n) == done + p.message[from..EndOf(p.tokens, n)]
    && (done == "" || done[|done| - 1] == '}')
    && forall i :: OccursAt(done, Placeholder(IdOf(p, k)), i) ==> i == Offset(p, k) + 1
  }

  ghost function IdOf(p: Input, k: nat): string
    requires p.Valid() && k < |p.tokens|
  {
    p.env.newMentionId(|EntriesOf(p, k)|)
  }

  lemma {:induction false} IdIndexInRange(p: Input, k: nat)
    requires p.Valid() && k <= |p.tokens|
    ensures |EntriesOf(p, k)| <= k
  {
    if k > 0 { IdIndexInRange(p, k - 1); }
  }

  lemma IdIsFresh(p: Input, k: nat)
    requires p.Valid() && FreshIds(p) && k < |p.tokens|
    ensures FreshId(p.message, IdOf(p, k))
  {
    IdIndexInRange(p, k);
  }

  lemma OccursInWhole(s: string, from: nat, to: nat, pat: string, i: int)
    requires from <= to <= |s| && OccursAt(s[from..to], pat, i)
    ensures OccursAt(s, pat, from + i)
  {
    assert OccursAt(s, s[from..to], from);
    PartOccurs(s, s[from..to], from, i, i + |pat|);
  }

  lemma FreshInPart(message: string, id: string, from: nat, to: nat)
    requires FreshId(message, id) && from <= to <= |message|
    ensures !Contains(message[from..to], Placeholder(id))
  {
    if i :| OccursAt(message[from..to], Placeholder(id), i) {
      OccursInWhole(message, from, to, Placeholder(id), i);
    }
  }

  lemma {:induction false} DifferentIds(p: Input, j: nat, k: nat)
    requires p.Valid() && FreshIds(p) && j < k < |p.tokens| && OutcomeOf(p, j).Replaced?
    ensures IdOf(p, j) != IdOf(p, k)
  {
    EntriesStep(p, j);
    EntriesGrow(p, j + 1, k);
    IdIndexInRange(p, k);
  }

  lemma TextGoesOn(message: string, i: nat, j: nat, k: nat)
    requires i <= j <= k <= |message|
    ensures message[i..j] + message[j..k] == message[i..k]
  {}

  lemma {:induction false} Marked(p: Input, k: nat, n: nat) returns (done: string, from: nat)
    requires p.Valid() && FreshIds(p) && k < |p.tokens| && n <= |p.tokens| && OutcomeOf(p, k).Replaced?
    ensures MarkedSoFar(p, k, n, done, from)
    decreases n
  {
    if n == 0 {
      done, from := "", 0;
      NothingMarked(p, k);
    } else {
      done, from := Marked(p, k, n - 1);
      done, from := MarkedNext(p, k, n - 1, done, from);
    }
  }

  lemma NothingMarked(p: Input, k: nat)
    requires p.Valid() && k < |p.tokens|
    ensures MarkedSoFar(p, k, 0, "", 0)
  {}

  lemma MarkedNext(p: Input, k: nat, n: nat, done: string, from: nat) returns (done': string, from': nat)
    requires p.Valid() && FreshIds(p) && k < |p.tokens| && n < |p.tokens| && OutcomeOf(p, k).Replaced?
    requires MarkedSoFar(p, k, n, done, from)
    ensures MarkedSoFar(p, k, n + 1, done', from')
  {
    done', from' := done, from;
    if OutcomeOf(p, n).Kept? {
      KeptGoesOn(p, k, n, done, from);
    } else {
      done' := MarkAdded(p, k, n, done, from);
      from' := EndOf(p.tokens, n + 1);
    }
  }

  lemma KeptGoesOn(p: Input, k: nat, n: nat, done: string, from: nat)
    requires p.Valid() && k < |p.tokens| && n < |p.tokens| && OutcomeOf(p, n).Kept?
    requires MarkedSoFar(p, k, n, done, from)
    ensures MarkedSoFar(p, k, n + 1, done, from)
  {
    KeptText(p, n);
    SplicedStep(p, n);
    RunGoesOn(p.message, Spliced(p, n), done, from, EndOf(p.tokens, n), EndOf(p.tokens, n + 1));
  }

  lemma MarkAdded(p: Input, k: nat, n: nat, done: string, from: nat) returns (done': string)
    requires p.Valid() && FreshIds(p) && k < |p.tokens| && n < |p.tokens|
    requires OutcomeOf(p, k).Replaced? && OutcomeOf(p, n).Replaced? && MarkedSoFar(p, k, n, done, from)
    ensures MarkedSoFar(p, k, n + 1, done', EndOf(p.tokens, n + 1))
  {
    MarkStep(p, k, n, done, from);
    var text := p.message[from..p.tokens[n].start];
    done' := Spliced(p, n + 1);
    forall at | OccursAt(done', Placeholder(IdOf(p, k)), at)
      ensures at == Offset(p, k) + 1
    {
      OnlyOwnMark(p, k, n, done, text, at);
    }
    EndsInBrace(done + text, IdOf(p, n));
    assert done' + p.message[EndOf(p.tokens, n + 1)..EndOf(p.tokens, n + 1)] == done';
  }

  lemma EndsInBrace(before: string, id: string)
    ensures var s := before + Mark(id); s != "" && s[|s| - 1] == '}'
  {}

  lemma MarkStep(p: Input, k: nat, n: nat, done: string, from: nat)
    requires p.Valid() && k < |p.tokens| && n < |p.tokens|
    requires OutcomeOf(p, n).Replaced? && MarkedSoFar(p, k, n, done, from)
    ensures from <= p.tokens[n].start <= EndOf(p.tokens, n + 1) <= |p.message|
    ensures var text := p.message[from..p.tokens[n].start];
            Spliced(p, n + 1) == done + text + Mark(IdOf(p, n)) && Offset(p, n) == |done + text|
  {
    assert NextToken(p.message, p.tokens, n);
    ReplacedEntry(p, n);
    SplicedStep(p, n);
    RunGoesOn(p.message, Spliced(p, n), done, from, EndOf(p.tokens, n), p.tokens[n].start);
  }

  /** Text of the message that goes on where the run behind the last mark ends. */
  lemma RunGoesOn(message: string, spliced: string, done: string, from: nat, i: nat, j: nat)
    requires from <= i <= j <= |message| && spliced == done + message[from..i]
    ensures spliced + message[i..j] == done + message[from..j]
  {
    TextGoesOn(message, from, i, j);
    assert spliced + message[i..j] == done + (message[from..i] + message[i..j]);
  }

  lemma KeptText(p: Input, n: nat)
    requires p.Valid() && n < |p.tokens| && OutcomeOf(p, n).Kept?
    ensures EndOf(p.tokens, n) <= EndOf(p.tokens, n + 1) <= |p.message|
    ensures Gap(p, n) + Piece(p, n) == p.message[EndOf(p.tokens, n)..EndOf(p.tokens, n + 1)]
  {
    var i, j := EndOf(p.tokens, n), EndOf(p.tokens, n + 1);
    KeptPiece(p, n);
    var more := Gap(p, n) + Piece(p, n);
    assert more == (p.message[..i] + more)[i..] == p.message[..j][i..] == p.message[i..j];
  }

  lemma OnlyOwnMark(p: Input, k: nat, n: nat, done: string, text: string, at: int)
    requires p.Valid() && FreshIds(p) && k < |p.tokens| && n < |p.tokens|
    requires OutcomeOf(p, k).Replaced? && OutcomeOf(p, n).Replaced?
    requires (done == "" || done[|done| - 1] == '}') && Offset(p, n) == |done + text|
    requires forall i :: OccursAt(done, Placeholder(IdOf(p, k)), i) ==> i == Offset(p, k) + 1
    requires exists from: nat, to: nat :: from <= to <= |p.message| && text == p.message[from..to]
    requires OccursAt(done + text + Mark(IdOf(p, n)), Placeholder(IdOf(p, k)), at)
    ensures at == Offset(p, k) + 1
  {
    var id := IdOf(p, k);
    IdIsFresh(p, k);
    IdIsFresh(p, n);
    OccursBeforeMark(done + text, IdOf(p, n), id, at);
    if OccursAt(done + text, Placeholder(id), at) {
      var from: nat, to: nat :| from <= to <= |p.message| && text == p.message[from..to];
      FreshInPart(p.message, id, from, to);
      OccursOnOneSide(done, text, id, at);
    } else {
      if k < n { DifferentIds(p, k, n); }
      if n < k { DifferentIds(p, n, k); }
    }
  }

  /** The placeholder of a replaced token stands in the rewritten message once: where it was put. */
  lemma PlaceholderStandsOnce(p: Input, k: nat, i: int)
    requires p.Valid() && FreshIds(p) && k < |p.tokens| && OutcomeOf(p, k).Replaced?
    requires OccursAt(Rewritten(p), Placeholder(IdOf(p, k)), i)
    ensures i == Offset(p, k) + 1
  {
    var done, from := Marked(p, k, |p.tokens|);
    var text := p.message[from..|p.message|];
    LastRun(p, k, done, from);
    IdIsFresh(p, k);
    FreshInPart(p.message, IdOf(p, k), from, |p.message|);
    OccursOnOneSide(done, text, IdOf(p, k), i);
  }

  lemma LastRun(p: Input, k: nat, done: string, from: nat)
    requires p.Valid() && k < |p.tokens| && MarkedSoFar(p, k, |p.tokens|, done, from)
    ensures Rewritten(p) == done + p.message[from..|p.message|]
  {
    var end := EndOf(p.tokens, |p.tokens|);
    assert p.message[end..] == p.message[end..|p.message|];
    RunGoesOn(p.message, Spliced(p, |p.tokens|), done, from, end, |p.message|);
  }

  // ---- the cap -------------------------------------------------------------------------------------

  /** A parsed mention is kept by the cap exactly when its placeholder is, whole, in the kept text, as long as
      the ids drawn are fresh. */
  lemma {:induction false} ParsedMentionLivesWithItsText(p: Input, k: nat, suffix: string, limit: nat, cut: nat)
    requires p.Valid() && FreshIds(p) && k < |p.tokens| && OutcomeOf(p, k).Replaced?
    requires limit <= |Rewritten(p)| && cut <= |Rewritten(p)| && IsCut(Rewritten(p), suffix, limit, cut)
    requires SuffixSafe(suffix)
    ensures |EntriesOf(p, k)| < |EntriesOf(p, |p.tokens|)|
    ensures var entry := EntriesOf(p, |p.tokens|)[|EntriesOf(p, k)|];
            var body := Rewritten(p)[..cut] + EffectiveSuffix(suffix, limit);
            entry.Parsed? && (!Orphaned(entry, Rewritten(p), body) <==> Offset(p, k) + |Piece(p, k)| <= cut)
  {
    PlaceholderNamesItsEntry(p, k, |p.tokens|);
    RewritesOnlyTokens(p, k);
    IdIsFresh(p, k);
    forall i | OccursAt(Rewritten(p), Placeholder(IdOf(p, k)), i)
      ensures i == Offset(p, k) + 1
    {
      PlaceholderStandsOnce(p, k, i);
    }
    var entry := EntriesOf(p, |p.tokens|)[|EntriesOf(p, k)|];
    MarkLivesWithItsText(Rewritten(p), suffix, limit, cut, entry, Offset(p, k));
  }

  lemma MarkLivesWithItsText(msg: string, suffix: string, limit: nat, cut: nat, entry: RawEntry, at: nat)
    requires SuffixSafe(suffix) && limit <= |msg| && cut <= |msg| && IsCut(msg, suffix, limit, cut)
    requires entry.Parsed? && entry.mentionId != "" && '}' !in entry.mentionId
    requires OccursAt(msg, Mark(entry.mentionId), at)
    requires forall i :: OccursAt(msg, Placeholder(entry.mentionId), i) ==> i == at + 1
    ensures !Orphaned(entry, msg, msg[..cut] + EffectiveSuffix(suffix, limit)) <==> at + |Mark(entry.mentionId)| <= cut
  {
    var id := entry.mentionId;
    var ph := Placeholder(id);
    assert msg[at + 1..at + 1 + |ph|] == msg[at..at + 1 + |ph|][1..] == ph;
    assert OccursAt(msg, ph, at + 1);
    BraceFreeIdIsUnbreakable(id);
    CapKeepsMentionsConsistent(msg, suffix, limit, cut, id);
    CutIsOutside(msg, suffix, limit, cut);
    CutSplitsNoMention(msg, cut, id, at + 1);
  }
}
