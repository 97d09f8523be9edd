/** internal/botapi/truncate.go: cutting a message body without cutting a mention
    placeholder in two. A message is a sequence of runes. */
module Truncation {
  import opened Text
  import opened MentionWire
  import opened Wrappers

  const LINE_BOUNDARY_WINDOW := 10

  /** Half-open rune range of one placeholder, sigils included. */
  datatype Span = Span(start: nat, end: nat)

  predicate IsSigil(c: char) {
    c == '@' || c == '#'
  }

  /** What a placeholder is, without any scanning order: a core at `core`, closed by the
      first '}' after it (at `end - 1`), with all sigils standing before it. */
  predicate PlaceholderAt(r: string, start: int, core: int, end: int) {
    && 0 <= start <= core < end <= |r|
    && OccursAt(r, PLACEHOLDER_CORE, core)
    && r[end - 1] == '}'
    && (forall k :: core <= k < end - 1 ==> r[k] != '}')
    && (forall k :: start <= k < core ==> IsSigil(r[k]))
    && (start == 0 || !IsSigil(r[start - 1]))
  }

  /** A cut here would leave part of some placeholder behind. */
  ghost predicate InsidePlaceholder(r: string, cut: int) {
    exists start, core, end :: PlaceholderAt(r, start, core, end) && start < cut < end
  }

  /** Where the cut would go if there were no placeholders: just past the last newline
      among the `window` runes before `hard`, else `hard` itself. */
  ghost predicate IsPreferredCut(r: string, hard: nat, window: int, p: nat)
    requires hard <= |r|
  {
    if exists i :: 0 <= i < hard && hard - window <= i && r[i] == '\n' then
      0 < p <= hard && hard - window < p && r[p - 1] == '\n' && forall i :: p <= i < hard ==> r[i] != '\n'
    else
      p == hard
  }

  function EffectiveSuffix(suffix: string, limit: nat): (r: string)
    ensures limit > 0 ==> |r| < limit
    ensures |r| <= limit
    ensures r == suffix || (r == "" && |suffix| >= limit)
  {
    if |suffix| >= limit then "" else suffix
  }

  function HardCut(suffix: string, limit: nat): nat {
    limit - |EffectiveSuffix(suffix, limit)|
  }

  ghost predicate IsCutFrom(msg: string, preferred: nat, cut: nat) {
    && cut <= preferred
    && !InsidePlaceholder(msg, cut)
    && forall k :: cut < k <= preferred ==> InsidePlaceholder(msg, k)
  }

  /** The contract of truncation: the greatest position that is not after the preferred
      one and not strictly inside a placeholder. */
  ghost predicate IsCut(msg: string, suffix: string, limit: nat, cut: nat)
    requires limit <= |msg|
  {
    exists p: nat ::
      IsPreferredCut(msg, HardCut(suffix, limit), limit / LINE_BOUNDARY_WINDOW, p) && IsCutFrom(msg, p, cut)
  }

  method LastLineBreak(runes: string, cut: nat, window: int) returns (nl: int)
    requires cut <= |runes|
    ensures nl < 0 ==> nl == -1 && forall i :: 0 <= i && cut - window <= i < cut ==> runes[i] != '\n'
    ensures nl >= 0 ==> IsPreferredCut(runes, cut, window, nl) && 0 < nl && runes[nl - 1] == '\n'
  {
    if window <= 0 {
      return -1;
    }
    var low := if cut - window < 0 then 0 else cut - window;
    var i := cut - 1;
    while i >= low
      invariant low - 1 <= i < cut
      invariant forall k :: i < k < cut ==> runes[k] != '\n'
      decreases i - low
    {
      if runes[i] == '\n' {
        return i + 1;
      }
      i := i - 1;
    }
    return -1;
  }

  /** The index of the first '}' at or after `from`, or -1. */
  method ClosingBrace(runes: string, from: nat) returns (closing: int)
    requires from <= |runes|
    ensures closing == -1 || (from <= closing < |runes| && runes[closing] == '}')
    ensures forall k :: from <= k < (if closing == -1 then |runes| else closing) ==> runes[k] != '}'
  {
    var j := from;
    while j < |runes|
      invariant from <= j <= |runes|
      invariant forall k :: from <= k < j ==> runes[k] != '}'
    {
      if runes[j] == '}' {
        return j;
      }
      j := j + 1;
    }
    return -1;
  }

  /** Every placeholder with its core before `upTo` lies inside one of the spans. */
  ghost predicate Covers(r: string, spans: seq<Span>, upTo: int) {
    forall start, core, end :: PlaceholderAt(r, start, core, end) && core < upTo ==>
      exists i :: 0 <= i < |spans| && spans[i].start <= start && end <= spans[i].end
  }

  ghost predicate IsPlaceholder(r: string, sp: Span) {
    exists core :: PlaceholderAt(r, sp.start, core, sp.end)
  }

  ghost predicate AllPlaceholders(r: string, spans: seq<Span>) {
    forall i :: 0 <= i < |spans| ==> IsPlaceholder(r, spans[i])
  }

  ghost predicate Ordered(spans: seq<Span>) {
    forall i, j :: 0 <= i < j < |spans| ==> spans[i].end <= spans[j].start
  }

  /** A placeholder whose core lies in [core, closing] ends at `closing + 1` and, unless it is
      the first, starts after `core`: it is nested in the outer one. */
  lemma NestedPlaceholder(r: string, start: int, core: int, closing: int, s: int, c: int, e: int)
    requires PlaceholderAt(r, start, core, closing + 1)
    requires PlaceholderAt(r, s, c, e) && core <= c <= closing
    ensures start <= s && e == closing + 1
  {
    assert r[core..core + |PLACEHOLDER_CORE|][0] == '{';
    assert r[core] == '{' && !IsSigil(r[core]);
    var ends, before := (r[closing], r[e - 1]), if start > 0 then r[start - 1] else ' ';
    assert ends.0 == '}' == ends.1;
  }

  ghost predicate NoCoreIn(r: string, from: int, to: int) {
    forall k :: from <= k < to ==> !OccursAt(r, PLACEHOLDER_CORE, k)
  }

  ghost predicate Scanned(r: string, spans: seq<Span>, upTo: int) {
    && Ordered(spans) && AllPlaceholders(r, spans) && Covers(r, spans, upTo)
    && forall k :: 0 <= k < |spans| ==> spans[k].end <= upTo
  }

  /** One round of the scan: the first core at or after `i` and the first '}' behind it. */
  lemma AddSpan(r: string, spans: seq<Span>, i: int, start: int, core: int, closing: int)
    requires Scanned(r, spans, i) && 0 <= i <= start
    requires PlaceholderAt(r, start, core, closing + 1)
    requires NoCoreIn(r, i, core)
    ensures Scanned(r, spans + [Span(start, closing + 1)], closing + 1)
  {
    assert IsPlaceholder(r, Span(start, closing + 1));
    SpanCovers(r, spans, i, start, core, closing);
  }

  lemma SpanCovers(r: string, spans: seq<Span>, i: int, start: int, core: int, closing: int)
    requires Covers(r, spans, i) && 0 <= i
    requires PlaceholderAt(r, start, core, closing + 1)
    requires NoCoreIn(r, i, core)
    ensures Covers(r, spans + [Span(start, closing + 1)], closing + 1)
  {
    var sp := Span(start, closing + 1);
    var after := spans + [sp];
    forall s, c, e | PlaceholderAt(r, s, c, e) && c < closing + 1
      ensures exists k :: 0 <= k < |after| && after[k].start <= s && e <= after[k].end
    {
      if c < i {
        var k :| 0 <= k < |spans| && spans[k].start <= s && e <= spans[k].end;
        assert after[k] == spans[k];
      } else {
        NestedPlaceholder(r, start, core, closing, s, c, e);
        assert after[|spans|] == sp;
      }
    }
  }

  /** Nothing is left to find when no core or no '}' follows. */
  lemma ScanComplete(r: string, spans: seq<Span>, i: int, core: int)
    requires Scanned(r, spans, i) && 0 <= i <= core <= |r|
    requires NoCoreIn(r, i, core)
    requires forall k :: core <= k < |r| ==> r[k] != '}'
    ensures Scanned(r, spans, |r|)
  {
    forall s, c, e | PlaceholderAt(r, s, c, e)
      ensures c < i
    {
      var brace := r[e - 1];
    }
  }

  /** Where the run of sigils before `core` begins. */
  function SigilStart(r: string, core: nat): (start: nat)
    requires core <= |r|
    ensures start <= core && (forall k :: start <= k < core ==> IsSigil(r[k]))
    ensures start == 0 || !IsSigil(r[start - 1])
  {
    if core > 0 && IsSigil(r[core - 1]) then SigilStart(r, core - 1) else core
  }

  method TakeSigils(runes: string, core: nat) returns (start: nat)
    requires core <= |runes|
    ensures start == SigilStart(runes, core)
  {
    start := core;
    while start > 0 && IsSigil(runes[start - 1])
      invariant start <= core && SigilStart(runes, start) == SigilStart(runes, core)
    {
      start := start - 1;
    }
  }

  /** The placeholder whose core stands at `core`, if it is ever closed. */
  method SpanAround(runes: string, core: nat) returns (sp: Option<Span>)
    requires OccursAt(runes, PLACEHOLDER_CORE, core)
    ensures sp.None? ==> forall k :: core <= k < |runes| ==> runes[k] != '}'
    ensures sp.Some? ==> PlaceholderAt(runes, sp.value.start, core, sp.value.end)
  {
    var closing := ClosingBrace(runes, core);
    if closing < 0 {
      return None;
    }
    PartOf(runes, PLACEHOLDER_CORE, core, 0);
    var start := TakeSigils(runes, core);
    return Some(Span(start, closing + 1));
  }

  /** The '}' that ends the scanned part stops the run of sigils. */
  lemma SigilsStopAtBrace(r: string, i: nat, start: nat, core: nat)
    requires i <= core <= |r| && start <= core
    requires i == 0 || r[i - 1] == '}'
    requires forall k :: start <= k < core ==> IsSigil(r[k])
    ensures i <= start
  {
    var at := if i > 0 then r[i - 1] else '}';
    assert !IsSigil(at);
  }

  /** The first core at or after `from`, or -1. */
  method FindCore(r: string, from: nat) returns (core: int)
    requires from <= |r|
    ensures core < 0 ==> NoCoreIn(r, from, |r|)
    ensures core >= 0 ==> from <= core && OccursAt(r, PLACEHOLDER_CORE, core) && NoCoreIn(r, from, core)
  {
    core := IndexFrom(r, PLACEHOLDER_CORE, from);
  }

  lemma SpanScanned(r: string, spans: seq<Span>, i: nat, core: nat, sp: Span)
    requires i <= core <= |r| && (i == 0 || r[i - 1] == '}') && Scanned(r, spans, i) && NoCoreIn(r, i, core)
    requires PlaceholderAt(r, sp.start, core, sp.end)
    ensures Scanned(r, spans + [sp], sp.end)
  {
    SigilsStopAtBrace(r, i, sp.start, core);
    AddSpan(r, spans, i, sp.start, core, sp.end - 1);
  }

  /** The next span at or after `i`, behind the spans found so far. */
  method NextSpan(runes: string, i: nat, ghost spans: seq<Span>) returns (next: Option<Span>)
    requires i <= |runes| && (i == 0 || runes[i - 1] == '}') && Scanned(runes, spans, i)
    ensures next.None? ==> Scanned(runes, spans, |runes|)
    ensures next.Some? ==> var sp := next.value;
              i < sp.end <= |runes| && runes[sp.end - 1] == '}' && Scanned(runes, spans + [sp], sp.end)
  {
    var core := FindCore(runes, i);
    if core < 0 {
      ScanComplete(runes, spans, i, |runes|);
      return None;
    }
    next := SpanAround(runes, core);
    if next.None? {
      ScanComplete(runes, spans, i, core);
    } else {
      SpanScanned(runes, spans, i, core, next.value);
    }
  }

  method PlaceholderSpans(runes: string) returns (spans: seq<Span>)
    ensures Scanned(runes, spans, |runes|)
  {
    spans := [];
    var i := 0;
    while i < |runes|
      invariant 0 <= i <= |runes|
      invariant i == 0 || runes[i - 1] == '}'
      invariant Scanned(runes, spans, i)
      decreases |runes| - i
    {
      var next := NextSpan(runes, i, spans);
      if next.None? {
        return;
      }
      spans := spans + [next.value];
      i := next.value.end;
    }
  }

  method PullOutOfPlaceholder(spans: seq<Span>, cut: nat) returns (r: nat)
    ensures (forall k :: 0 <= k < |spans| ==> !(spans[k].start < cut < spans[k].end)) ==> r == cut
    ensures r == cut || exists k :: 0 <= k < |spans| && spans[k].start == r && r < cut < spans[k].end
    ensures r == cut ==> forall k :: 0 <= k < |spans| ==> !(spans[k].start < cut < spans[k].end)
  {
    for i := 0 to |spans|
      invariant forall k :: 0 <= k < i ==> !(spans[k].start < cut < spans[k].end)
    {
      var sp := spans[i];
      if cut > sp.start && cut < sp.end {
        return sp.start;
      }
    }
    return cut;
  }

  /** The scanned spans and the definition of a placeholder agree on every position. */
  lemma SpansDecideInside(r: string, spans: seq<Span>, cut: nat)
    requires Scanned(r, spans, |r|)
    ensures InsidePlaceholder(r, cut) <==> exists k :: 0 <= k < |spans| && spans[k].start < cut < spans[k].end
  {
    if InsidePlaceholder(r, cut) {
      var start, core, end :| PlaceholderAt(r, start, core, end) && start < cut < end;
    }
    if k :| 0 <= k < |spans| && spans[k].start < cut < spans[k].end {
      assert IsPlaceholder(r, spans[k]);
      var core :| PlaceholderAt(r, spans[k].start, core, spans[k].end);
    }
  }

  /** The hard cut, or the line break near it. */
  method PreferredCut(msg: string, hard: nat, window: nat) returns (cut: nat)
    requires hard <= |msg|
    ensures IsPreferredCut(msg, hard, window, cut) && cut <= hard
  {
    cut := hard;
    var nl := LastLineBreak(msg, hard, window);
    if nl >= 0 {
      cut := nl;
    }
  }

  /** The preferred cut, moved out of the placeholder it falls into. */
  method OutsideCut(msg: string, preferred: nat) returns (cut: nat)
    ensures IsCutFrom(msg, preferred, cut)
  {
    var spans := PlaceholderSpans(msg);
    cut := PullOutOfPlaceholder(spans, preferred);
    PulledOutIsGreatest(msg, spans, preferred, cut);
  }

  method TruncateMessage(msg: string, suffix: string, limit: int) returns (body: string, truncated: bool)
    ensures truncated <==> 0 < limit < |msg|
    ensures !truncated ==> body == msg
    ensures truncated ==> |body| <= limit
    ensures truncated ==> exists cut: nat ::
              cut <= |msg| && IsCut(msg, suffix, limit, cut) && body == msg[..cut] + EffectiveSuffix(suffix, limit)
  {
    if limit <= 0 {
      return msg, false;
    }
    if |msg| <= limit {
      return msg, false;
    }
    var suffixRunes := suffix;
    if |suffixRunes| >= limit {
      suffixRunes := "";
    }
    var preferred := PreferredCut(msg, limit - |suffixRunes|, limit / LINE_BOUNDARY_WINDOW);
    var cut := OutsideCut(msg, preferred);
    assert IsCut(msg, suffix, limit, cut);
    return msg[..cut] + suffixRunes, true;
  }

  lemma PulledOutIsGreatest(r: string, spans: seq<Span>, preferred: nat, cut: nat)
    requires Scanned(r, spans, |r|)
    requires cut == preferred || exists k :: 0 <= k < |spans| && spans[k].start == cut && cut < preferred < spans[k].end
    requires cut == preferred ==> forall k :: 0 <= k < |spans| ==> !(spans[k].start < cut < spans[k].end)
    ensures IsCutFrom(r, preferred, cut)
  {
    SpansDecideInside(r, spans, cut);
    if cut != preferred {
      var j :| 0 <= j < |spans| && spans[j].start == cut && cut < preferred < spans[j].end;
      forall k | cut < k <= preferred ensures InsidePlaceholder(r, k) {
        SpansDecideInside(r, spans, k);
      }
      forall i | 0 <= i < |spans| ensures !(spans[i].start < cut < spans[i].end) {
        if i < j { assert spans[i].end <= spans[j].start; }
        if j < i { assert spans[j].end <= spans[i].start; }
      }
    }
  }

  /** The contract leaves no freedom: two cuts that meet it are the same cut. */
  lemma CutIsUnique(msg: string, suffix: string, limit: nat, a: nat, b: nat)
    requires limit <= |msg|
    requires IsCut(msg, suffix, limit, a) && IsCut(msg, suffix, limit, b)
    ensures a == b
  {
    var p: nat :| IsPreferredCut(msg, HardCut(suffix, limit), limit / LINE_BOUNDARY_WINDOW, p) && IsCutFrom(msg, p, a);
    var q: nat :| IsPreferredCut(msg, HardCut(suffix, limit), limit / LINE_BOUNDARY_WINDOW, q) && IsCutFrom(msg, q, b);
    var ends := (if p > 0 then msg[p - 1] else ' ', if q > 0 then msg[q - 1] else ' ');
    assert 0 < p < q ==> ends.1 == '\n';
  }

  ghost predicate NoLineEnds(msg: string, from: int, to: nat)
    requires to <= |msg|
  {
    forall i :: 0 <= i && from <= i < to ==> msg[i] != '\n'
  }

  /** Where no line ends shortly before the limit and no placeholder stands across it, the limit is used up. */
  lemma CutFillsTheLimit(msg: string, suffix: string, limit: nat, cut: nat)
    requires |suffix| < limit <= |msg| && IsCut(msg, suffix, limit, cut)
    requires NoLineEnds(msg, limit - |suffix| - limit / 10, limit - |suffix|)
    requires !InsidePlaceholder(msg, limit - |suffix|)
    ensures cut + |suffix| == limit
  {}

  /** The last line that ends there, outside placeholders, is where the kept text ends. */
  lemma CutFollowsTheLine(msg: string, suffix: string, limit: nat, cut: nat, i: nat)
    requires |suffix| < limit <= |msg| && IsCut(msg, suffix, limit, cut)
    requires limit - |suffix| - limit / 10 <= i < limit - |suffix| && msg[i] == '\n'
    requires NoLineEnds(msg, i + 1, limit - |suffix|) && !InsidePlaceholder(msg, i + 1)
    ensures cut == i + 1
  {
    var hard := limit - |suffix|;
    var p: nat :| IsPreferredCut(msg, hard, limit / LINE_BOUNDARY_WINDOW, p) && IsCutFrom(msg, p, cut);
    assert msg[p - 1] == '\n';
  }

  /** Every occurrence of a mention's placeholder text is kept whole or dropped whole. */
  lemma {:induction false} CutSplitsNoMention(msg: string, cut: nat, id: string, i: nat)
    requires !InsidePlaceholder(msg, cut)
    requires '}' !in id
    requires OccursAt(msg, Placeholder(id), i)
    ensures i + |Placeholder(id)| <= cut || cut <= i
  {
    var ph := Placeholder(id);
    var end := i + |ph|;
    assert msg[i..end] == ph;
    assert forall k :: 0 <= k < |ph| ==> msg[i + k] == ph[k];
    assert OccursAt(msg, PLACEHOLDER_CORE, i) by {
      assert ph[..|PLACEHOLDER_CORE|] == PLACEHOLDER_CORE;
      assert msg[i..i + |PLACEHOLDER_CORE|] == ph[..|PLACEHOLDER_CORE|];
    }
    var start := SigilStart(msg, i);
    assert msg[end - 1] == '}';
    forall k | i <= k < end - 1 ensures msg[k] != '}' {
      assert msg[k] == ph[k - i];
    }
    assert PlaceholderAt(msg, start, i, end);
  }
}
