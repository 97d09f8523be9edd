/** Capping and mention ids: for which ids capping drops exactly the entries that were cut away. A client may
    write any text as an id; only a closing brace in it can do harm, and not always. */
module MentionIds {
  import opened Text
  import opened MentionWire
  import opened Truncation
  import opened MentionFilter

  ghost predicate LineBreakIn(s: string, from: int, to: nat) {
    exists k :: 0 <= k < |s| && from <= k < to && s[k] == '\n'
  }

  /** A cut at `h` is behind the first closing brace `brace`, and a line break does not take it back there:
      there is none in the window before `h`, or there is one behind the brace. */
  ghost predicate StaysBehind(ph: string, brace: int, h: nat) {
    var from := h - h / LINE_BOUNDARY_WINDOW;
    brace < h < |ph| && (LineBreakIn(ph, from, h) ==> LineBreakIn(ph, if from <= brace then brace + 1 else from, h))
  }

  /** The text of the placeholder goes on behind its first closing brace, with room for a cut. */
  ghost predicate Splittable(id: string) {
    exists h: nat :: StaysBehind(Placeholder(id), IndexFrom(Placeholder(id), "}", 0), h)
  }

  /** There is a closing brace in the id, and no mention begins behind the last one. */
  ghost predicate Finishable(id: string) {
    exists head, last :: EndsBehindBrace(id, head, last) && OpensNothing(last)
  }

  ghost predicate EndsBehindBrace(id: string, head: string, last: string) {
    id == head + "}" + last && '}' !in last
  }

  /** At most a bare "{mention:" at the very end. */
  ghost predicate OpensNothing(s: string) {
    forall i :: OccursAt(s, PLACEHOLDER_CORE, i) ==> i + |PLACEHOLDER_CORE| == |s|
  }

  ghost predicate Breakable(id: string) {
    Splittable(id) || Finishable(id)
  }

  lemma BraceFreeIdIsUnbreakable(id: string)
    requires '}' !in id
    ensures !Breakable(id)
  {
    var ph := Placeholder(id);
    IndexOfChar(ph, '}');
    assert forall k :: 0 <= k < |ph| - 1 ==> ph[k] != '}';
    if head, last :| EndsBehindBrace(id, head, last) {
      HasBrace(id, head, last);
    }
  }

  lemma HasBrace(id: string, head: string, last: string)
    requires EndsBehindBrace(id, head, last)
    ensures '}' in id
  {
    assert id[|head|] == '}';
  }

  // ---- unbreakable ids are judged rightly --------------------------------------------------------

  /** Right behind a closing brace no placeholder goes on. */
  lemma OutsideBehindBrace(r: string, at: nat)
    requires 0 < at <= |r| && r[at - 1] == '}'
    ensures !InsidePlaceholder(r, at)
  {
    var brace := r[at - 1];
    assert !IsSigil(brace);
  }

  /** What is inside a placeholder of a part of a text is inside one of the text. */
  lemma InsidePartIsInside(msg: string, part: string, i: nat, at: nat)
    requires OccursAt(msg, part, i) && InsidePlaceholder(part, at)
    ensures InsidePlaceholder(msg, i + at)
  {
    var start, core, end :| PlaceholderAt(part, start, core, end) && start < at < end;
    var first := PlaceholderMoves(msg, part, i, start, core, end);
  }

  /** In the longer text a placeholder may have more sigils before it. */
  lemma PlaceholderMoves(msg: string, part: string, i: nat, start: nat, core: nat, end: nat) returns (first: nat)
    requires OccursAt(msg, part, i) && PlaceholderAt(part, start, core, end)
    ensures first <= i + start && PlaceholderAt(msg, first, i + core, i + end)
  {
    SameChars(msg, part, i);
    PartOccurs(msg, part, i, core, core + |PLACEHOLDER_CORE|);
    first := SigilStart(msg, i + core);
    assert forall k :: i + start <= k < i + core ==> msg[k] == part[k - i];
    SigilsReach(msg, i + start, i + core);
    assert forall k :: i + core <= k < i + end ==> msg[k] == part[k - i];
  }

  lemma SameChars(msg: string, part: string, i: nat)
    requires OccursAt(msg, part, i)
    ensures forall k :: i <= k < i + |part| ==> msg[k] == part[k - i]
  {
    forall k | i <= k < i + |part| ensures msg[k] == part[k - i] { PartOf(msg, part, i, k - i); }
  }

  lemma {:induction false} SigilsReach(r: string, from: nat, core: nat)
    requires from <= core <= |r| && forall k :: from <= k < core ==> IsSigil(r[k])
    ensures SigilStart(r, core) <= from
  {
    if from < core { SigilsReach(r, from, core - 1); }
  }

  lemma {:induction false} GreatestOutside(r: string, preferred: nat, low: nat) returns (cut: nat)
    requires low <= preferred && !InsidePlaceholder(r, low)
    ensures low <= cut && IsCutFrom(r, preferred, cut)
  {
    cut := preferred;
    while InsidePlaceholder(r, cut)
      invariant low <= cut <= preferred && forall k :: cut < k <= preferred ==> InsidePlaceholder(r, k)
      decreases cut
    {
      cut := cut - 1;
    }
  }

  /** The placeholder's own text, truncated at some limit, keeps a part of itself. */
  ghost predicate SplitByCut(id: string) {
    var ph := Placeholder(id);
    exists limit: nat, cut: nat :: 0 < cut <= limit < |ph| && IsCut(ph, "", limit, cut)
  }

  /** The first closing brace ends the placeholder that begins with the text. */
  lemma FirstPlaceholder(id: string, brace: int)
    requires brace == IndexFrom(Placeholder(id), "}", 0)
    ensures 0 < brace < |Placeholder(id)| && Placeholder(id)[brace] == '}'
    ensures PlaceholderAt(Placeholder(id), 0, 0, brace + 1)
  {
    var ph := Placeholder(id);
    IndexOfChar(ph, '}');
    assert ph[|ph| - 1] == '}';
    assert ph[0..|PLACEHOLDER_CORE|] == PLACEHOLDER_CORE;
    assert forall k :: 0 <= k < |PLACEHOLDER_CORE| ==> ph[k] == PLACEHOLDER_CORE[k];
    assert forall k :: 0 <= k < brace ==> ph[k] == ph[..brace][k];
  }

  lemma StaysBehindIsCut(id: string, brace: int, h: nat) returns (cut: nat)
    requires brace == IndexFrom(Placeholder(id), "}", 0) && StaysBehind(Placeholder(id), brace, h)
    ensures 0 < cut <= h && IsCut(Placeholder(id), "", h, cut)
  {
    var ph := Placeholder(id);
    FirstPlaceholder(id, brace);
    OutsideBehindBrace(ph, brace + 1);
    var preferred := PreferredFor(ph, h, h / LINE_BOUNDARY_WINDOW, brace);
    cut := GreatestOutside(ph, preferred, brace + 1);
    assert HardCut("", h) == h;
  }

  /** The preferred cut before `hard`, which stays behind `low`. */
  lemma {:induction false} PreferredFor(r: string, hard: nat, window: nat, low: int) returns (p: nat)
    requires 0 <= low < hard <= |r| && r[low] != '\n'
    requires LineBreakIn(r, hard - window, hard) ==>
               LineBreakIn(r, if hard - window <= low then low + 1 else hard - window, hard)
    ensures IsPreferredCut(r, hard, window, p) && low < p <= hard
  {
    p := hard;
    if LineBreakIn(r, hard - window, hard) {
      var from := if hard - window <= low then low + 1 else hard - window;
      while r[p - 1] != '\n'
        invariant low < p <= hard && LineBreakIn(r, from, p) && forall k :: p <= k < hard ==> r[k] != '\n'
        decreases p
      {
        p := p - 1;
      }
    }
  }

  lemma CutStaysBehind(id: string, brace: int, limit: nat, cut: nat)
    requires brace == IndexFrom(Placeholder(id), "}", 0)
    requires 0 < cut <= limit < |Placeholder(id)| && IsCut(Placeholder(id), "", limit, cut)
    ensures StaysBehind(Placeholder(id), brace, limit)
  {
    var ph := Placeholder(id);
    FirstPlaceholder(id, brace);
    assert HardCut("", limit) == limit;
    var p: nat :| IsPreferredCut(ph, limit, limit / LINE_BOUNDARY_WINDOW, p) && IsCutFrom(ph, p, cut);
    assert cut <= brace ==> InsidePlaceholder(ph, cut);
    if LineBreakIn(ph, limit - limit / LINE_BOUNDARY_WINDOW, limit) {
      assert ph[p - 1] == '\n' && brace < p - 1;
    }
  }

  /** What can be read off the id is what truncation does to its placeholder. */
  lemma SplittableExactly(id: string)
    ensures Splittable(id) <==> SplitByCut(id)
  {
    var brace := IndexFrom(Placeholder(id), "}", 0);
    if h: nat :| StaysBehind(Placeholder(id), brace, h) {
      var cut := StaysBehindIsCut(id, brace, h);
    }
    if limit: nat, cut: nat :| 0 < cut <= limit < |Placeholder(id)| && IsCut(Placeholder(id), "", limit, cut) {
      CutStaysBehind(id, brace, limit, cut);
    }
  }

  /** A placeholder that a cut splits can be split alone: with less text before it, less of it is searched
      for a line break. */
  lemma SplitAlone(msg: string, suffix: string, limit: nat, cut: nat, id: string, i: nat)
    requires limit <= |msg| && IsCut(msg, suffix, limit, cut)
    requires OccursAt(msg, Placeholder(id), i) && i < cut < i + |Placeholder(id)|
    ensures SplitByCut(id)
  {
    var ph := Placeholder(id);
    var hard, window := HardCut(suffix, limit), limit / LINE_BOUNDARY_WINDOW;
    var p: nat :| IsPreferredCut(msg, hard, window, p) && IsCutFrom(msg, p, cut);
    PreferredBeforeEnd(msg, ph, i, p, cut);
    var h := p - i;
    PreferredAlone(msg, ph, i, hard, window, p);
    assert !InsidePlaceholder(ph, cut - i) by {
      if InsidePlaceholder(ph, cut - i) { InsidePartIsInside(msg, ph, i, cut - i); }
    }
    var alone := GreatestOutside(ph, h, cut - i);
    assert HardCut("", h) == h;
    assert IsCut(ph, "", h, alone);
  }

  lemma PreferredBeforeEnd(msg: string, ph: string, i: nat, p: nat, cut: nat)
    requires OccursAt(msg, ph, i) && ph != "" && ph[|ph| - 1] == '}' && IsCutFrom(msg, p, cut)
    requires i < cut < i + |ph|
    ensures i < p < i + |ph|
  {
    var end := i + |ph|;
    PartOf(msg, ph, i, |ph| - 1);
    OutsideBehindBrace(msg, end);
  }

  lemma PreferredAlone(msg: string, ph: string, i: nat, hard: nat, window: nat, p: nat)
    requires OccursAt(msg, ph, i) && i < p < i + |ph| && hard <= |msg|
    requires IsPreferredCut(msg, hard, window, p) && hard <= LINE_BOUNDARY_WINDOW * window + LINE_BOUNDARY_WINDOW - 1
    ensures IsPreferredCut(ph, p - i, (p - i) / LINE_BOUNDARY_WINDOW, p - i)
  {
    var h := p - i;
    var near := h / LINE_BOUNDARY_WINDOW;
    PartOf(msg, ph, i, h - 1);
    if k :| 0 <= k < h && h - near <= k && ph[k] == '\n' {
      PartOf(msg, ph, i, k);
      assert msg[i + k] == '\n' && i + k < hard;
      assert near <= window;
      assert hard - window <= i + k || p < hard;
    }
  }

  /** An id that is not breakable: the entry is dropped exactly when its placeholder stood in the message and
      every occurrence starts at or after the cut. */
  lemma {:induction false} CapKeepsMentionsConsistent(msg: string, suffix: string, limit: nat, cut: nat, id: string)
    requires SuffixSafe(suffix) && id != "" && !Breakable(id)
    requires limit <= |msg| && cut <= |msg| && IsCut(msg, suffix, limit, cut)
    ensures DropsExactlyTheCut(msg, suffix, limit, cut, id)
  {
    var ph := Placeholder(id);
    var tail := EffectiveSuffix(suffix, limit);
    var body := msg[..cut] + tail;
    assert body[..cut] == msg[..cut];
    CutIsOutside(msg, suffix, limit, cut);
    EffectiveSuffixIsSafe(suffix, limit);
    if i :| OccursAt(msg, ph, i) && i < cut {
      if cut < i + |ph| {
        SplitAlone(msg, suffix, limit, cut, id, i);
        SplittableExactly(id);
      }
      OccursInPrefix(msg, body, cut, ph, i);
    } else if j, later :| OccursAt(body, ph, j) && OccursAt(msg, ph, later) {
      ShownBeforeCut(msg, tail, cut, id, j, later);
      OccursInPrefix(msg, body, cut, ph, j);
    }
  }

  /** The capped body shows only what stood in the message before the cut. */
  lemma ShownBeforeCut(msg: string, tail: string, cut: nat, id: string, j: nat, later: nat)
    requires SuffixSafe(tail) && id != "" && !Finishable(id) && cut <= |msg| && !InsidePlaceholder(msg, cut)
    requires OccursAt(msg[..cut] + tail, Placeholder(id), j)
    requires OccursAt(msg, Placeholder(id), later) && cut <= later
    ensures j + |Placeholder(id)| <= cut
  {
    if '}' !in id {
      SeamIsBehind(msg, tail, cut, id, j, later);
    } else {
      var ph := Placeholder(id);
      var at, inner := LastMention(id);
      PartOccurs(msg[..cut] + tail, ph, j, at, |ph|);
      PartOccurs(msg, ph, later, at, |ph|);
      assert ph[at..|ph|] == Placeholder(inner);
      SeamIsBehind(msg, tail, cut, inner, j + at, later + at);
    }
  }

  /** An id that is not finishable ends in a mention of its own. */
  lemma LastMention(id: string) returns (at: nat, inner: string)
    requires '}' in id && !Finishable(id)
    ensures inner != "" && '}' !in inner
    ensures at <= |Placeholder(id)| && Placeholder(id)[at..] == Placeholder(inner)
  {
    var head, last := AtLastBrace(id);
    assert EndsBehindBrace(id, head, last) && !OpensNothing(last);
    var i :| OccursAt(last, PLACEHOLDER_CORE, i) && i + |PLACEHOLDER_CORE| != |last|;
    inner := last[i + |PLACEHOLDER_CORE|..];
    at := |PLACEHOLDER_CORE| + |head| + 1 + i;
    var before := PLACEHOLDER_CORE + head + "}" + last[..i];
    assert last == last[..i] + PLACEHOLDER_CORE + inner;
    assert Placeholder(id) == before + Placeholder(inner);
  }

  lemma {:induction false} AtLastBrace(id: string) returns (head: string, last: string)
    requires '}' in id
    ensures EndsBehindBrace(id, head, last)
  {
    var n := |id|;
    while id[n - 1] != '}'
      invariant 0 < n <= |id| && '}' !in id[n..] && '}' in id[..n]
      decreases n
    {
      assert id[..n] == id[..n - 1] + [id[n - 1]];
      assert id[n - 1..] == [id[n - 1]] + id[n..];
      n := n - 1;
    }
    head, last := id[..n - 1], id[n..];
    assert id == head + [id[n - 1]] + last;
  }

  // ---- breakable ids are misjudged -----------------------------------------------------------------

  /** A message, a safe suffix, a limit and a cut for which the entry is judged wrongly. */
  ghost predicate Misjudges(msg: string, suffix: string, limit: nat, cut: nat, id: string) {
    && SuffixSafe(suffix) && 0 < limit < |msg| && cut <= |msg|
    && IsCut(msg, suffix, limit, cut) && !DropsExactlyTheCut(msg, suffix, limit, cut, id)
  }

  /** The message is the placeholder: a part of it is kept, and its entry dropped. */
  lemma SplittableIsMisjudged(id: string, limit: nat, cut: nat)
    requires 0 < cut <= limit < |Placeholder(id)| && IsCut(Placeholder(id), "", limit, cut)
    ensures Misjudges(Placeholder(id), "", limit, cut, id)
  {
    var ph := Placeholder(id);
    BraceFreeSuffixIsSafe("");
    assert OccursAt(ph, ph, 0) && Contains(ph, ph);
    assert EffectiveSuffix("", limit) == "" && |ph[..cut] + ""| < |ph|;
    assert !Contains(ph[..cut] + "", ph);
  }

  /** A placeholder without a line break. */
  function Filler(n: nat): string {
    PLACEHOLDER_CORE + seq(n, _ => 'q') + "}"
  }

  lemma FillerChars(n: nat)
    ensures |Filler(n)| == |PLACEHOLDER_CORE| + n + 1 && Filler(n)[..|PLACEHOLDER_CORE|] == PLACEHOLDER_CORE
    ensures forall k :: 0 <= k < |Filler(n)| - 1 ==> Filler(n)[k] != '}' && Filler(n)[k] != '\n'
    ensures Filler(n)[|Filler(n)| - 1] == '}'
  {}

  /** How the text of a placeholder is divided: `kept` ends behind every mention and sigil it began. */
  datatype Parts = Parts(kept: string, sigils: string, end: string) {
    function Suffix(): string {
      sigils + end
    }

    function Message(): string {
      kept + Filler(|kept + Suffix()|) + (kept + Suffix())
    }

    function Limit(): nat {
      2 * |kept + Suffix()|
    }

    ghost predicate Valid() {
      && kept != "" && !IsSigil(kept[|kept| - 1])
      && (forall k :: 0 <= k < |sigils| ==> IsSigil(sigils[k]))
      && (end == "}" || end == PLACEHOLDER_CORE + "}")
      && (exists brace :: ClosesAt(kept, brace))
    }
  }

  /** The last closing brace of `kept`, behind which no mention begins. */
  ghost predicate ClosesAt(kept: string, brace: int) {
    && 0 <= brace < |kept| && kept[brace] == '}'
    && forall i :: brace < i ==> !OccursAt(kept, PLACEHOLDER_CORE, i)
  }

  lemma CoreChars(k: nat)
    requires k < |PLACEHOLDER_CORE|
    ensures !IsSigil(PLACEHOLDER_CORE[k]) && PLACEHOLDER_CORE[k] != '}' && PLACEHOLDER_CORE[k] != '\n'
    ensures PLACEHOLDER_CORE[k] == '{' <==> k == 0
  {}

  /** Sigils and a bare "{mention:" do not make or finish a mention. */
  lemma SigilSuffixIsSafe(p: Parts)
    requires p.Valid()
    ensures SuffixSafe(p.Suffix())
  {
    forall id: string, k: nat | id != "" && '}' !in id && k < |PLACEHOLDER_CORE|
      ensures !Shows(p.Suffix(), id, k)
    {
      if CoreTail(k) + id + "}" <= p.Suffix() { FinishesNothing(p, id, k); }
      if i :| OccursAt(p.Suffix(), Placeholder(id), i) { ShowsNothing(p, id, i); }
    }
  }

  lemma OnlyBrace(p: Parts, at: nat)
    requires p.Valid() && at < |p.Suffix()| && p.Suffix()[at] == '}'
    ensures at == |p.Suffix()| - 1
  {
    if |p.sigils| <= at { var c := p.end[at - |p.sigils|]; }
  }

  lemma FinishesNothing(p: Parts, id: string, k: nat)
    requires p.Valid() && id != "" && k < |PLACEHOLDER_CORE|
    ensures !(CoreTail(k) + id + "}" <= p.Suffix())
  {
    var closing := CoreTail(k) + id + "}";
    var first := p.Suffix()[0];
    CoreChars(k);
    if closing <= p.Suffix() {
      OnlyBrace(p, |closing| - 1);
    }
  }

  lemma ShowsNothing(p: Parts, id: string, i: int)
    requires p.Valid() && id != ""
    ensures !OccursAt(p.Suffix(), Placeholder(id), i)
  {
    var ph := Placeholder(id);
    if OccursAt(p.Suffix(), ph, i) {
      PartOf(p.Suffix(), ph, i, 0);
      PartOf(p.Suffix(), ph, i, |ph| - 1);
      OnlyBrace(p, i + |ph| - 1);
    }
  }

  /** What stands where in the message. */
  lemma MessageChars(p: Parts)
    requires p.Valid()
    ensures var msg, c, n := p.Message(), |p.kept|, |p.kept + p.Suffix()|;
            && msg[..c] == p.kept
            && OccursAt(msg, Filler(n), c)
            && (forall k :: c <= k < c + |Filler(n)| ==> msg[k] == Filler(n)[k - c])
            && OccursAt(msg, p.kept + p.Suffix(), c + |Filler(n)|)
  {
    var msg, c, n := p.Message(), |p.kept|, |p.kept + p.Suffix()|;
    assert msg[c..c + |Filler(n)|] == Filler(n);
    assert msg[c + |Filler(n)|..c + |Filler(n)| + n] == p.kept + p.Suffix();
  }

  /** The kept part ends outside every placeholder of the message. */
  lemma KeptIsOutside(p: Parts)
    requires p.Valid()
    ensures !InsidePlaceholder(p.Message(), |p.kept|)
  {
    var msg, c := p.Message(), |p.kept|;
    var brace :| ClosesAt(p.kept, brace);
    MessageChars(p);
    FillerChars(|p.kept + p.Suffix()|);
    assert msg[c - 1] == p.kept[c - 1] && msg[brace] == '}' && msg[c] == '{';
    forall start, core, end | PlaceholderAt(msg, start, core, end)
      ensures !(start < c < end)
    {
      if brace < core < c { NoCoreAtSeam(p, brace, core); }
    }
  }

  lemma NoCoreAtSeam(p: Parts, brace: nat, core: nat)
    requires p.Valid() && ClosesAt(p.kept, brace) && brace < core < |p.kept|
    ensures !OccursAt(p.Message(), PLACEHOLDER_CORE, core)
  {
    var msg, c := p.Message(), |p.kept|;
    MessageChars(p);
    FillerChars(|p.kept + p.Suffix()|);
    if core + |PLACEHOLDER_CORE| <= c {
      assert p.kept[..c] == p.kept;
      OccursInPrefix(msg, p.kept, c, PLACEHOLDER_CORE, core);
    } else if OccursAt(msg, PLACEHOLDER_CORE, core) {
      PartOf(msg, PLACEHOLDER_CORE, core, c - core);
      CoreChars(c - core);
    }
  }

  /** The filler is a placeholder, and everything in it is cut. */
  lemma FillerIsInside(p: Parts, at: nat)
    requires p.Valid() && |p.kept| < at < |p.kept| + |Filler(|p.kept + p.Suffix()|)|
    ensures InsidePlaceholder(p.Message(), at)
  {
    var msg, c, n := p.Message(), |p.kept|, |p.kept + p.Suffix()|;
    MessageChars(p);
    FillerChars(n);
    PartOccurs(msg, Filler(n), c, 0, |PLACEHOLDER_CORE|);
    assert msg[c - 1] == p.kept[c - 1];
    assert PlaceholderAt(msg, c, c, c + |Filler(n)|);
  }

  lemma KeptIsCut(p: Parts)
    requires p.Valid()
    ensures 0 < p.Limit() < |p.Message()| && |p.kept| <= |p.Message()|
    ensures EffectiveSuffix(p.Suffix(), p.Limit()) == p.Suffix()
    ensures IsCut(p.Message(), p.Suffix(), p.Limit(), |p.kept|)
  {
    var msg, c, n := p.Message(), |p.kept|, |p.kept + p.Suffix()|;
    MessageChars(p);
    FillerChars(n);
    KeptIsOutside(p);
    forall at | c < at <= c + n
      ensures InsidePlaceholder(msg, at)
    {
      FillerIsInside(p, at);
    }
    assert HardCut(p.Suffix(), p.Limit()) == c + n;
    assert IsPreferredCut(msg, c + n, p.Limit() / LINE_BOUNDARY_WINDOW, c + n);
    assert IsCutFrom(msg, c + n, c);
  }

  /** The message shows the mention only behind the cut, but the suffix completes it. */
  lemma FinishedIsMisjudged(p: Parts, id: string)
    requires p.Valid() && p.kept + p.Suffix() == Placeholder(id)
    ensures Misjudges(p.Message(), p.Suffix(), p.Limit(), |p.kept|, id)
  {
    var msg, c, ph := p.Message(), |p.kept|, Placeholder(id);
    MessageChars(p);
    FillerChars(|ph|);
    SigilSuffixIsSafe(p);
    KeptIsCut(p);
    assert OccursAt(ph, ph, 0) && Contains(msg[..c] + p.Suffix(), ph);
    assert Contains(msg, ph);
    forall i | OccursAt(msg, ph, i)
      ensures c <= i
    {
      PartOf(msg, ph, i, |ph| - 1);
    }
    assert OnlyAfter(msg, ph, c);
  }

  /** The kept part ends before a mention that `last` may begin. */
  lemma KeptCloses(text: string, last: string, brace: nat, c: nat)
    requires brace < c <= |text| && text[brace] == '}' && text[brace + 1..] == last && OpensNothing(last)
    requires OccursAt(last, PLACEHOLDER_CORE, |last| - |PLACEHOLDER_CORE|) ==> c <= |text| - |PLACEHOLDER_CORE|
    ensures ClosesAt(text[..c], brace)
  {
    forall i | brace < i
      ensures !OccursAt(text[..c], PLACEHOLDER_CORE, i)
    {
      if OccursAt(text[..c], PLACEHOLDER_CORE, i) {
        assert text[..c][..c] == text[..c];
        OccursInPrefix(text[..c], text, c, PLACEHOLDER_CORE, i);
        OccursInRest(text, brace + 1, PLACEHOLDER_CORE, i);
      }
    }
  }

  lemma OccursInRest(s: string, from: nat, pat: string, i: int)
    requires from <= i && OccursAt(s, pat, i)
    ensures OccursAt(s[from..], pat, i - from)
  {
    assert s[from..][i - from..i - from + |pat|] == s[i..i + |pat|];
  }

  lemma PartsOf(id: string, head: string, last: string) returns (p: Parts)
    requires EndsBehindBrace(id, head, last) && OpensNothing(last)
    ensures p.Valid() && p.kept + p.Suffix() == Placeholder(id)
  {
    var text, brace := PLACEHOLDER_CORE + head + "}" + last, |PLACEHOLDER_CORE| + |head|;
    assert text[brace] == '}' && text[brace + 1..] == last;
    var open := OccursAt(last, PLACEHOLDER_CORE, |last| - |PLACEHOLDER_CORE|);
    var stop := if open then |text| - |PLACEHOLDER_CORE| else |text|;
    assert text[stop..] == if open then PLACEHOLDER_CORE else "" by {
      if open { assert text[stop..] == last[|last| - |PLACEHOLDER_CORE|..]; }
    }
    p := Divide(text, last, brace, stop);
    assert Placeholder(id) == text + "}";
  }

  lemma ThreeParts(s: string, i: nat, j: nat)
    requires i <= j <= |s|
    ensures s[..i] + (s[i..j] + (s[j..] + "}")) == s + "}"
  {}

  lemma Divide(text: string, last: string, brace: nat, stop: nat) returns (p: Parts)
    requires brace < stop <= |text| && text[brace] == '}' && text[brace + 1..] == last && OpensNothing(last)
    requires text[stop..] == "" || text[stop..] == PLACEHOLDER_CORE
    requires OccursAt(last, PLACEHOLDER_CORE, |last| - |PLACEHOLDER_CORE|) ==> stop <= |text| - |PLACEHOLDER_CORE|
    ensures p.Valid() && p.kept + p.Suffix() == text + "}"
  {
    var c := SigilStart(text, stop);
    SigilsStopAtBrace(text, brace + 1, c, stop);
    p := Parts(text[..c], text[c..stop], text[stop..] + "}");
    KeptCloses(text, last, brace, c);
    ThreeParts(text, c, stop);
  }

  /** The restriction is exact: some message, suffix and limit misjudge the entry of an id exactly when the
      id is breakable. */
  lemma MisjudgedExactly(id: string)
    requires id != ""
    ensures (exists msg, suffix, limit: nat, cut: nat :: Misjudges(msg, suffix, limit, cut, id)) <==> Breakable(id)
  {
    if msg, suffix, limit: nat, cut: nat :| Misjudges(msg, suffix, limit, cut, id) {
      if !Breakable(id) { CapKeepsMentionsConsistent(msg, suffix, limit, cut, id); }
    }
    SplittableExactly(id);
    if limit: nat, cut: nat :| 0 < cut <= limit < |Placeholder(id)| && IsCut(Placeholder(id), "", limit, cut) {
      SplittableIsMisjudged(id, limit, cut);
    }
    if head, last :| EndsBehindBrace(id, head, last) && OpensNothing(last) {
      var p := PartsOf(id, head, last);
      FinishedIsMisjudged(p, id);
    }
  }

  /** In particular every id with a closing brace behind which no mention begins. */
  lemma BracedIdIsMisjudged(id: string)
    requires '}' in id && forall i :: OccursAt(id, PLACEHOLDER_CORE, i) ==> i + |PLACEHOLDER_CORE| == |id|
    ensures exists msg, suffix, limit: nat, cut: nat :: Misjudges(msg, suffix, limit, cut, id)
  {
    var head, last := AtLastBrace(id);
    forall i | OccursAt(last, PLACEHOLDER_CORE, i)
      ensures i + |PLACEHOLDER_CORE| == |last|
    {
      assert id[|head| + 1 + i..|head| + 1 + i + |PLACEHOLDER_CORE|] == last[i..i + |PLACEHOLDER_CORE|];
      assert OccursAt(id, PLACEHOLDER_CORE, |head| + 1 + i);
    }
    MisjudgedExactly(id);
  }

  // ---- a closing brace alone does not make an id breakable -------------------------------------------

  lemma InRest<T>(s: seq<T>, from: nat, k: nat)
    requires from <= k < |s|
    ensures s[k] in s[from..]
  {
    assert s[from..][k - from] == s[k];
  }

  lemma NoBraceBehind(id: string, head: string, last: string)
    requires EndsBehindBrace(id, head, last)
    ensures |head| < |id| && id[|head|] == '}' && forall k :: |head| < k < |id| ==> id[k] != '}'
    ensures id[..|head|] == head && id[|head| + 1..] == last
  {
    assert id[|head| + 1..] == last;
    forall k | |head| < k < |id|
      ensures id[k] != '}'
    {
      InRest(id, |head| + 1, k);
    }
  }

  lemma LastIsUnique(id: string, a: string, b: string, last: string, last': string)
    requires EndsBehindBrace(id, a, last) && EndsBehindBrace(id, b, last')
    ensures a == b && last == last'
  {
    NoBraceBehind(id, a, last);
    NoBraceBehind(id, b, last');
  }

  /** A line break before the brace and a mention behind it can keep every cut away. */
  lemma LineBreakShields(u: string, id: string)
    requires '}' !in u && |u| >= 120 && id == u + "\n}{mention:z"
    ensures '}' in id && !Breakable(id)
  {
    var bare := "{mention:z";
    assert id == u + "\n" + "}" + bare;
    HasBrace(id, u + "\n", bare);
    TextShielded(u, Placeholder(id));
    assert bare[0..|PLACEHOLDER_CORE|] == PLACEHOLDER_CORE && OccursAt(bare, PLACEHOLDER_CORE, 0);
    if head, last :| EndsBehindBrace(id, head, last) && OpensNothing(last) {
      LastIsUnique(id, head, u + "\n", last, bare);
    }
  }

  lemma TextShielded(u: string, ph: string)
    requires '}' !in u && |u| >= 120 && ph == Placeholder(u + "\n}{mention:z")
    ensures forall h: nat :: !StaysBehind(ph, IndexFrom(ph, "}", 0), h)
  {
    var front, back := PLACEHOLDER_CORE + u + "\n", "{mention:z}";
    assert ph == front + "}" + back;
    SplitAtFirst(ph, front, '}', back);
    forall h: nat
      ensures !StaysBehind(ph, |front|, h)
    {
      ShieldedAt(ph, front, back, h);
    }
  }

  /** A short text without line breaks behind the brace, and a line break right before it. */
  lemma ShieldedAt(ph: string, front: string, back: string, h: nat)
    requires ph == front + "}" + back && |front| >= 130 && |back| <= 11 && '\n' !in back && front[|front| - 1] == '\n'
    ensures !StaysBehind(ph, |front|, h)
  {
    if |front| < h < |ph| {
      assert h - h / LINE_BOUNDARY_WINDOW <= |front| - 1;
      assert ph[|front| - 1] == '\n';
      assert forall k :: |front| < k < |ph| ==> ph[k] == back[k - |front| - 1];
    }
  }
}
