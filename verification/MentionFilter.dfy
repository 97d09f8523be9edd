/** internal/botapi/mentions_filter.go and capBody of internal/botapi/client.go: keeping the
    mentions array in step with a truncated body. */
module MentionFilter {
  import opened Text
  import opened MentionWire
  import opened Truncation

  datatype FilterResult = Filtered(mentions: RawMentions) | NotAnArray | NotAnObject

  /** The placeholder of this entry stood in the original and is gone from the body. */
  ghost predicate Orphaned(entry: RawEntry, original: string, body: string)
    requires !entry.Malformed?
  {
    && entry.mentionId != ""
    && Contains(original, Placeholder(entry.mentionId))
    && !Contains(body, Placeholder(entry.mentionId))
  }

  ghost predicate Decodable(entries: seq<RawEntry>) {
    forall i :: 0 <= i < |entries| ==> !entries[i].Malformed?
  }

  /** The entries that are not orphaned, in their order. */
  ghost function Linked(entries: seq<RawEntry>, original: string, body: string): seq<RawEntry>
    requires Decodable(entries)
  {
    if entries == [] then [] else
      var n := |entries| - 1;
      Linked(entries[..n], original, body) + if Orphaned(entries[n], original, body) then [] else [entries[n]]
  }

  lemma LinkedAtMost(entries: seq<RawEntry>, original: string, body: string)
    requires Decodable(entries)
    ensures |Linked(entries, original, body)| <= |entries|
    ensures |Linked(entries, original, body)| == |entries| ==> Linked(entries, original, body) == entries
  {
    if entries != [] {
      var n := |entries| - 1;
      LinkedAtMost(entries[..n], original, body);
      assert entries == entries[..n] + [entries[n]];
    }
  }

  /** Filtering decides entry by entry and keeps the order: it takes out an entry exactly when it has an id whose
      placeholder the original shows and the body does not. */
  lemma {:induction false} LinkedEntryByEntry(front: seq<RawEntry>, entry: RawEntry, back: seq<RawEntry>,
                                              original: string, body: string)
    requires Decodable(front) && !entry.Malformed? && Decodable(back)
    ensures Decodable(front + [entry] + back)
    ensures var ph := "{mention:" + entry.mentionId + "}";
            var gone := entry.mentionId != "" && Contains(original, ph) && !Contains(body, ph);
            Linked(front + [entry] + back, original, body)
            == Linked(front, original, body) + (if gone then [] else [entry]) + Linked(back, original, body)
  {
    var all, n := front + [entry] + back, |front| + |back|;
    if back == [] {
      assert all[..n] == front && all[n] == entry;
    } else {
      var before := back[..|back| - 1];
      LinkedEntryByEntry(front, entry, before, original, body);
      assert all[..n] == front + [entry] + before && all[n] == back[|back| - 1];
    }
  }

  method FilterOrphanMentions(mentions: RawMentions, original: string, body: string) returns (r: FilterResult)
    ensures mentions.NoMentions? ==> r == Filtered(mentions)
    ensures mentions.Unreadable? ==> r == NotAnArray
    ensures mentions.Entries? && !Decodable(mentions.entries) ==> r == NotAnObject
    ensures mentions.Entries? && Decodable(mentions.entries) ==>
              r == Filtered(Entries(Linked(mentions.entries, original, body)))
  {
    if mentions.NoMentions? {
      return Filtered(mentions);
    }
    if mentions.Unreadable? {
      return NotAnArray;
    }
    var entries := mentions.entries;
    var kept: seq<RawEntry> := [];
    for i := 0 to |entries|
      invariant Decodable(entries[..i])
      invariant kept == Linked(entries[..i], original, body)
    {
      var entry := entries[i];
      if entry.Malformed? {
        return NotAnObject;
      }
      assert entries[..i + 1][..i] == entries[..i];
      if entry.mentionId != "" {
        var placeholder := Placeholder(entry.mentionId);
        var inOriginal := IndexFrom(original, placeholder, 0);
        var inBody := IndexFrom(body, placeholder, 0);
        assert Contains(original, placeholder) <==> inOriginal >= 0;
        assert Contains(body, placeholder) <==> inBody >= 0;
        if inOriginal >= 0 && inBody < 0 {
          continue;
        }
      }
      kept := kept + [entry];
    }
    assert entries[..|entries|] == entries;
    LinkedAtMost(entries, original, body);
    if |kept| == |entries| {
      return Filtered(mentions);
    }
    return Filtered(Entries(kept));
  }

  method CapBody(message: string, mentions: RawMentions, suffix: string, limit: int)
    returns (body: string, out: RawMentions)
    ensures !(0 < limit < |message|) ==> body == message && out == mentions
    ensures 0 < limit < |message| ==> |body| <= limit && exists cut: nat ::
              cut <= |message| && IsCut(message, suffix, limit, cut)
              && body == message[..cut] + EffectiveSuffix(suffix, limit)
    ensures 0 < limit < |message| ==>
              out == if mentions.Entries? && Decodable(mentions.entries)
                     then Entries(Linked(mentions.entries, message, body)) else mentions
  {
    var truncated;
    body, truncated := TruncateMessage(message, suffix, limit);
    if !truncated {
      return message, mentions;
    }
    out := mentions;
    if !mentions.NoMentions? {
      var filtered := FilterOrphanMentions(mentions, message, body);
      if filtered.Filtered? {
        out := filtered.mentions;
      }
    }
  }

  /** A suffix that can neither contain a mention placeholder nor finish one whose core the
      kept text has begun. Every suffix without '}' is one. */
  ghost predicate SuffixSafe(suffix: string) {
    forall id: string, k: nat :: id != "" && '}' !in id && k < |PLACEHOLDER_CORE| ==> !Shows(suffix, id, k)
  }

  /** The suffix contains the mention of `id`, or finishes one of which the first k characters stand
      before it. */
  ghost predicate Shows(suffix: string, id: string, k: nat)
    requires k <= |PLACEHOLDER_CORE|
  {
    CoreTail(k) + id + "}" <= suffix || Contains(suffix, Placeholder(id))
  }

  function CoreTail(k: nat): string
    requires k <= |PLACEHOLDER_CORE|
  {
    PLACEHOLDER_CORE[k..]
  }

  lemma BraceFreeSuffixIsSafe(suffix: string)
    requires '}' !in suffix
    ensures SuffixSafe(suffix)
  {
    forall id: string, k: nat | id != "" && '}' !in id && k < |PLACEHOLDER_CORE|
      ensures !Shows(suffix, id, k)
    {
      NoBraceNoEnding(suffix, CoreTail(k) + id);
      NoBraceNoEnding(suffix, PLACEHOLDER_CORE + id);
    }
  }

  lemma NoBraceNoEnding(suffix: string, start: string)
    requires '}' !in suffix
    ensures !(start + "}" <= suffix) && !Contains(suffix, start + "}")
  {
    var closing := start + "}";
    if closing <= suffix {
      assert OccursAt(suffix, closing, 0);
    }
    if i :| OccursAt(suffix, closing, i) {
      PartOf(suffix, closing, i, |start|);
    }
  }

  /** A suffix that does not fit is left out, which is safe too. */
  lemma EffectiveSuffixIsSafe(suffix: string, limit: nat)
    requires SuffixSafe(suffix)
    ensures SuffixSafe(EffectiveSuffix(suffix, limit))
  {
    BraceFreeSuffixIsSafe("");
  }

  lemma CutIsOutside(msg: string, suffix: string, limit: nat, cut: nat)
    requires limit <= |msg| && IsCut(msg, suffix, limit, cut)
    ensures !InsidePlaceholder(msg, cut)
  {}

  /** All occurrences of the placeholder start where the kept text ends, or later. */
  ghost predicate OnlyAfter(msg: string, ph: string, cut: nat) {
    forall i :: OccursAt(msg, ph, i) ==> cut <= i
  }

  /** An entry is dropped exactly when its placeholder stood in the message and every
      occurrence of it starts at or after the cut. */
  ghost predicate DropsExactlyTheCut(msg: string, suffix: string, limit: nat, cut: nat, id: string)
    requires cut <= |msg|
  {
    var ph := Placeholder(id);
    Contains(msg, ph) && !Contains(msg[..cut] + EffectiveSuffix(suffix, limit), ph)
    <==> Contains(msg, ph) && OnlyAfter(msg, ph, cut)
  }

  /** No mention shown by the capped body reaches behind the cut, if the message shows it later. */
  lemma SeamIsBehind(msg: string, tail: string, cut: nat, id: string, j: nat, later: nat)
    requires SuffixSafe(tail) && id != "" && '}' !in id && cut <= |msg| && !InsidePlaceholder(msg, cut)
    requires OccursAt(msg[..cut] + tail, Placeholder(id), j)
    requires OccursAt(msg, Placeholder(id), later) && cut <= later
    ensures j + |Placeholder(id)| <= cut
  {
    var ph := Placeholder(id);
    var body := msg[..cut] + tail;
    if cut <= j {
      assert tail[j - cut..j - cut + |ph|] == body[j..j + |ph|];
      assert OccursAt(tail, ph, j - cut) && Contains(tail, ph);
      SafeSuffixHasNo(tail, id, 0);
    } else if cut < j + |PLACEHOLDER_CORE| {
      SafeSuffixHasNo(tail, id, cut - j);
      SeamInCore(msg, tail, cut, id, j);
    } else if cut < j + |ph| {
      SeamInId(msg, tail, cut, id, j, later);
    }
  }

  lemma SafeSuffixHasNo(suffix: string, id: string, k: nat)
    requires SuffixSafe(suffix) && id != "" && '}' !in id && k < |PLACEHOLDER_CORE|
    ensures !(CoreTail(k) + id + "}" <= suffix) && !Contains(suffix, Placeholder(id))
  {
    assert !Shows(suffix, id, k);
  }

  lemma SeamInCore(msg: string, tail: string, cut: nat, id: string, j: nat)
    requires cut <= |msg| && OccursAt(msg[..cut] + tail, Placeholder(id), j)
    requires j < cut < j + |PLACEHOLDER_CORE|
    ensures CoreTail(cut - j) + id + "}" <= tail
  {
    var ph := Placeholder(id);
    var body := msg[..cut] + tail;
    var k := cut - j;
    assert tail[..|ph| - k] == body[cut..j + |ph|] == body[j..j + |ph|][k..] == ph[k..];
    assert ph[k..] == CoreTail(k) + id + "}";
  }

  /** The kept text ends inside a placeholder that the message closes later. */
  lemma {:induction false} SeamInId(msg: string, tail: string, cut: nat, id: string, j: nat, later: nat)
    requires '}' !in id && cut <= |msg|
    requires OccursAt(msg[..cut] + tail, Placeholder(id), j)
    requires j + |PLACEHOLDER_CORE| <= cut < j + |Placeholder(id)|
    requires OccursAt(msg, Placeholder(id), later) && cut <= later
    ensures InsidePlaceholder(msg, cut)
  {
    var ph := Placeholder(id);
    var body := msg[..cut] + tail;
    assert body[j..j + |ph|] == ph;
    assert msg[j..cut] == body[j..cut] == body[j..j + |ph|][..cut - j] == ph[..cut - j];
    assert ph[..|PLACEHOLDER_CORE|] == PLACEHOLDER_CORE;
    assert msg[j..j + |PLACEHOLDER_CORE|] == msg[j..cut][..|PLACEHOLDER_CORE|];
    PartOf(msg, ph, later, |ph| - 1);
    var closing := FirstBrace(msg, j, later + |ph| - 1);
    assert cut <= closing by {
      forall k | j <= k < cut ensures msg[k] != '}' {
        assert msg[k] == msg[j..cut][k - j] == ph[k - j];
      }
    }
    var start := SigilStart(msg, j);
    assert PlaceholderAt(msg, start, j, closing + 1);
  }

  lemma {:induction false} FirstBrace(s: string, from: nat, at: nat) returns (closing: nat)
    requires from <= at < |s| && s[at] == '}'
    ensures from <= closing <= at && s[closing] == '}'
    ensures forall k :: from <= k < closing ==> s[k] != '}'
  {
    closing := from;
    while s[closing] != '}'
      invariant from <= closing <= at
      invariant forall k :: from <= k < closing ==> s[k] != '}'
      decreases at - closing
    {
      closing := closing + 1;
    }
  }

  /** Safety of the suffix is not a convenience: for any other suffix some message is capped
      so that an entry whose placeholder was cut away is kept. */
  lemma {:induction false} UnsafeSuffixKeepsOrphans(suffix: string)
    returns (msg: string, limit: nat, cut: nat, id: string)
    requires !SuffixSafe(suffix)
    ensures id != "" && '}' !in id && 0 < limit < |msg| && cut <= |msg|
    ensures IsCut(msg, suffix, limit, cut) && !DropsExactlyTheCut(msg, suffix, limit, cut, id)
  {
    var k: nat;
    id, k :| id != "" && '}' !in id && k < |PLACEHOLDER_CORE| && Shows(suffix, id, k);
    var head := WitnessHead(suffix, id, k);
    msg, limit, cut := Witness(head, suffix, id), |suffix| + |head|, |head|;
    HeadIsCut(head, suffix, id);
    WitnessShows(suffix, id, k);
  }

  /** What is kept of the witness: the part of the mention the suffix finishes, or just some text. */
  ghost function WitnessHead(suffix: string, id: string, k: nat): (head: string)
    requires k < |PLACEHOLDER_CORE|
    ensures head == "x" || (0 < |head| < |PLACEHOLDER_CORE| && head <= PLACEHOLDER_CORE)
  {
    if CoreTail(k) + id + "}" <= suffix && k > 0 then PLACEHOLDER_CORE[..k] else "x"
  }

  lemma WitnessShows(suffix: string, id: string, k: nat)
    requires k < |PLACEHOLDER_CORE| && Shows(suffix, id, k)
    ensures Contains(WitnessHead(suffix, id, k) + suffix, Placeholder(id))
  {
    if CoreTail(k) + id + "}" <= suffix && k > 0 {
      SuffixFinishes(suffix, id, k);
    } else {
      if CoreTail(k) + id + "}" <= suffix {
        assert OccursAt(suffix, Placeholder(id), 0);
      }
      SuffixContains("x", suffix, Placeholder(id));
    }
  }

  lemma SuffixFinishes(suffix: string, id: string, k: nat)
    requires k < |PLACEHOLDER_CORE| && CoreTail(k) + id + "}" <= suffix
    ensures Contains(PLACEHOLDER_CORE[..k] + suffix, Placeholder(id))
  {
    var ph := Placeholder(id);
    assert PLACEHOLDER_CORE[..k] + (CoreTail(k) + id + "}") == ph;
    assert (PLACEHOLDER_CORE[..k] + suffix)[0..|ph|] == ph;
    assert OccursAt(PLACEHOLDER_CORE[..k] + suffix, ph, 0);
  }

  lemma SuffixContains(head: string, suffix: string, ph: string)
    requires Contains(suffix, ph)
    ensures Contains(head + suffix, ph)
  {
    var i :| OccursAt(suffix, ph, i);
    assert (head + suffix)[|head| + i..|head| + i + |ph|] == suffix[i..i + |ph|];
    assert OccursAt(head + suffix, ph, |head| + i);
  }

  function Witness(head: string, suffix: string, id: string): string {
    head + Placeholder(id) + suffix
  }

  lemma {:induction false} HeadIsCut(head: string, suffix: string, id: string)
    requires head == "x" || (0 < |head| < |PLACEHOLDER_CORE| && head <= PLACEHOLDER_CORE)
    ensures var msg := Witness(head, suffix, id);
            var limit := |suffix| + |head|;
            && limit < |msg|
            && EffectiveSuffix(suffix, limit) == suffix
            && msg[..|head|] == head
            && IsCut(msg, suffix, limit, |head|)
            && Contains(msg, Placeholder(id)) && OnlyAfter(msg, Placeholder(id), |head|)
  {
    var msg := Witness(head, suffix, id);
    var n := |head|;
    var ph := Placeholder(id);
    assert msg[n..n + |ph|] == ph && OccursAt(msg, ph, n);
    NoCoreInHead(head, suffix, id);
    forall i | OccursAt(msg, ph, i)
      ensures n <= i
    {
      CoreOfPlaceholder(msg, id, i);
    }
    NothingToPullOutOf(head, suffix, id);
  }

  lemma CoreOfPlaceholder(msg: string, id: string, i: int)
    requires OccursAt(msg, Placeholder(id), i)
    ensures OccursAt(msg, PLACEHOLDER_CORE, i)
  {
    var ph := Placeholder(id);
    assert msg[i..i + |PLACEHOLDER_CORE|] == msg[i..i + |ph|][..|PLACEHOLDER_CORE|];
    assert ph[..|PLACEHOLDER_CORE|] == PLACEHOLDER_CORE;
  }

  lemma NoCoreInHead(head: string, suffix: string, id: string)
    requires head == "x" || (0 < |head| < |PLACEHOLDER_CORE| && head <= PLACEHOLDER_CORE)
    ensures forall i: nat :: OccursAt(Witness(head, suffix, id), PLACEHOLDER_CORE, i) ==> |head| <= i
  {
    var msg := Witness(head, suffix, id);
    var n := |head|;
    assert msg[n] == '{' && (forall i :: 0 <= i < n ==> msg[i] == head[i]);
    forall i: nat | OccursAt(msg, PLACEHOLDER_CORE, i)
      ensures n <= i
    {
      PartOf(msg, PLACEHOLDER_CORE, i, if i == 0 then n else 0);
    }
  }

  lemma NothingToPullOutOf(head: string, suffix: string, id: string)
    requires head == "x" || (0 < |head| < |PLACEHOLDER_CORE| && head <= PLACEHOLDER_CORE)
    ensures IsCut(Witness(head, suffix, id), suffix, |suffix| + |head|, |head|)
  {
    var msg := Witness(head, suffix, id);
    var n := |head|;
    NoCoreInHead(head, suffix, id);
    assert forall i :: 0 <= i < n ==> msg[i] == head[i];
    assert !InsidePlaceholder(msg, n) by {
      assert !IsSigil(msg[n - 1]);
    }
    assert IsPreferredCut(msg, n, (|suffix| + n) / LINE_BOUNDARY_WINDOW, n);
    assert IsCutFrom(msg, n, n);
  }
}
