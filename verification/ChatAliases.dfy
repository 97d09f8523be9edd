/** generateChatAlias of internal/cmd/chats.go: the first free alias among `base`, `base-2`,
    `base-3`, ... The slug of a name is an arbitrary function. */
module ChatAliases {
  import opened Text

  function Candidate(base: string, i: nat): string {
    base + "-" + Decimal(i)
  }

  lemma CandidateInjective(base: string, i: nat, j: nat)
    ensures Candidate(base, i) == Candidate(base, j) <==> i == j
    ensures Candidate(base, i) != base
  {
    if Candidate(base, i) == Candidate(base, j) {
      assert Candidate(base, i)[|base| + 1..] == Decimal(i);
      assert Candidate(base, j)[|base| + 1..] == Decimal(j);
      DecimalInjective(i, j);
    }
  }

  /** The names tried before candidate `i`. */
  ghost function Tried(base: string, i: nat): set<string> {
    if i <= 2 then {base} else Tried(base, i - 1) + {Candidate(base, i - 1)}
  }

  lemma {:induction false} NotTriedYet(base: string, i: nat, k: nat)
    requires 2 <= i <= k
    ensures Candidate(base, k) !in Tried(base, i)
  {
    CandidateInjective(base, k, i - 1);
    if i > 2 { NotTriedYet(base, i - 1, k); }
  }

  lemma {:induction false} TriedSize(base: string, i: nat)
    requires i >= 2
    ensures |Tried(base, i)| == i - 1
  {
    if i > 2 {
      TriedSize(base, i - 1);
      NotTriedYet(base, i - 1, i - 1);
    }
  }

  /** As long as everything tried is taken, there have been at most as many tries as names taken. */
  lemma TriesBounded(base: string, i: nat, taken: set<string>)
    requires i >= 2 && Tried(base, i) <= taken
    ensures i <= |taken| + 1
  {
    TriedSize(base, i);
    SubsetSize(Tried(base, i), taken);
  }

  lemma SubsetSize(a: set<string>, b: set<string>)
    requires a <= b
    ensures |a| <= |b|
  {
    if a != {} {
      var x :| x in a;
      SubsetSize(a - {x}, b - {x});
    }
  }

  /** `alias` is what the search has to return: free, with everything before it taken. */
  ghost predicate IsFirstFree(base: string, taken: set<string>, alias: string) {
    && alias !in taken
    && (alias == base ||
        (base in taken
         && exists i :: 2 <= i && alias == Candidate(base, i)
                        && forall j :: 2 <= j < i ==> Candidate(base, j) in taken))
  }

  /** The search ends: after `taken` has been exhausted some candidate is free. */
  method FirstFree(base: string, taken: set<string>) returns (alias: string, tries: nat)
    ensures IsFirstFree(base, taken, alias)
    ensures tries <= |taken| + 1
  {
    if base !in taken {
      return base, 1;
    }
    var i := 2;
    TriesBounded(base, i, taken);
    while Candidate(base, i) in taken
      invariant 2 <= i <= |taken| + 1 && Tried(base, i) <= taken
      invariant forall j :: 2 <= j < i ==> Candidate(base, j) in taken
      decreases |taken| + 1 - i
    {
      TriesBounded(base, i + 1, taken);
      i := i + 1;
    }
    return Candidate(base, i), i;
  }

  lemma FirstFreeUnique(base: string, taken: set<string>, a: string, b: string)
    requires IsFirstFree(base, taken, a) && IsFirstFree(base, taken, b)
    ensures a == b
  {
    if a != base && b != base {
      var i :| 2 <= i && a == Candidate(base, i) && forall j :: 2 <= j < i ==> Candidate(base, j) in taken;
      var k :| 2 <= k && b == Candidate(base, k) && forall j :: 2 <= j < k ==> Candidate(base, j) in taken;
      assert !(i < k) && !(k < i);
    }
  }

  lemma {:induction false} FirstFreeFrom(base: string, taken: set<string>, i: nat) returns (k: nat)
    requires 2 <= i && Tried(base, i) <= taken
    requires forall j :: 2 <= j < i ==> Candidate(base, j) in taken
    ensures i <= k && Candidate(base, k) !in taken && forall j :: 2 <= j < k ==> Candidate(base, j) in taken
    decreases |taken| + 1 - i
  {
    TriesBounded(base, i, taken);
    if Candidate(base, i) in taken {
      TriesBounded(base, i + 1, taken);
      k := FirstFreeFrom(base, taken, i + 1);
    } else {
      k := i;
    }
  }

  lemma FirstFreeExists(base: string, taken: set<string>)
    ensures exists alias :: IsFirstFree(base, taken, alias)
  {
    if base in taken {
      var k := FirstFreeFrom(base, taken, 2);
      assert IsFirstFree(base, taken, Candidate(base, k));
    } else {
      assert IsFirstFree(base, taken, base);
    }
  }

  ghost function FreeAlias(base: string, taken: set<string>): (alias: string)
    ensures IsFirstFree(base, taken, alias)
  {
    FirstFreeExists(base, taken);
    var alias :| IsFirstFree(base, taken, alias);
    alias
  }

  /** The first alias after the base itself is numbered 2. */
  lemma SecondAlias(base: string)
    ensures FreeAlias(base, {}) == base && FreeAlias(base, {base}) == base + "-2"
  {
    assert Candidate(base, 2) == base + "-2";
    CandidateInjective(base, 2, 2);
    FirstFreeUnique(base, {base}, FreeAlias(base, {base}), Candidate(base, 2));
  }

  // ---- slugs -------------------------------------------------------------------------------------

  predicate IsSlugChar(c: char) {
    'a' <= c <= 'z' || '0' <= c <= '9'
  }

  /** One rune more: a hyphen stands for any number of others, except at the start. */
  function SlugStep(s: string, c: char): string {
    if IsSlugChar(c) then s + [c]
    else if s != "" && s[|s| - 1] != '-' then s + "-"
    else s
  }

  function SlugRunes(s: string): string {
    if s == "" then "" else SlugStep(SlugRunes(s[..|s| - 1]), s[|s| - 1])
  }

  function TrimHyphens(s: string): string {
    if s != "" && s[|s| - 1] == '-' then TrimHyphens(s[..|s| - 1]) else s
  }

  /** The slug of a name that has been lowered and transliterated. */
  function Slug(s: string): string {
    TrimHyphens(SlugRunes(s))
  }

  /** `slug` is the source's: slugs of names as `plain` lowers and transliterates them. */
  ghost predicate SlugsBy(slug: string -> string, plain: string -> string) {
    forall name :: slug(name) == Slug(plain(name))
  }

  method SlugifyChatAlias(name: string) returns (slug: string)
    ensures slug == Slug(name)
  {
    slug := "";
    var lastHyphen := true;
    for i := 0 to |name|
      invariant slug == SlugRunes(name[..i])
      invariant lastHyphen <==> slug == "" || slug[|slug| - 1] == '-'
    {
      assert name[..i + 1][..i] == name[..i];
      if IsSlugChar(name[i]) {
        slug := slug + [name[i]];
        lastHyphen := false;
      } else if !lastHyphen {
        slug := slug + "-";
        lastHyphen := true;
      }
    }
    assert name[..|name|] == name;
    slug := TrimHyphens(slug);
  }

  ghost predicate SlugAt(s: string, i: nat)
    requires i < |s|
  {
    IsSlugChar(s[i]) || (s[i] == '-' && i > 0 && s[i - 1] != '-')
  }

  /** Slug characters and single hyphens, none at the start. */
  ghost predicate IsSlugPart(s: string) {
    forall i :: 0 <= i < |s| ==> SlugAt(s, i)
  }

  lemma SlugPrefix(s: string, n: nat)
    requires IsSlugPart(s) && n <= |s|
    ensures IsSlugPart(s[..n])
  {
    forall i | 0 <= i < n
      ensures SlugAt(s[..n], i)
    {
      assert SlugAt(s, i);
    }
  }

  lemma SlugConcat(a: string, b: string)
    requires IsSlugPart(a) && forall i :: |a| <= i < |a + b| ==> SlugAt(a + b, i)
    ensures IsSlugPart(a + b)
  {
    forall i | 0 <= i < |a + b|
      ensures SlugAt(a + b, i)
    {
      if i < |a| { assert SlugAt(a, i); }
    }
  }

  ghost predicate InSlugForm(s: string) {
    IsSlugPart(s) && (s != "" ==> s[|s| - 1] != '-')
  }

  lemma {:induction false} SlugRunesForm(s: string)
    ensures IsSlugPart(SlugRunes(s))
  {
    if s != "" {
      var before := SlugRunes(s[..|s| - 1]);
      SlugRunesForm(s[..|s| - 1]);
      if IsSlugChar(s[|s| - 1]) { SlugConcat(before, [s[|s| - 1]]); }
      if before != "" && before[|before| - 1] != '-' { SlugConcat(before, "-"); }
    }
  }

  lemma {:induction false} TrimForm(s: string)
    requires IsSlugPart(s)
    ensures InSlugForm(TrimHyphens(s))
  {
    if s != "" && s[|s| - 1] == '-' {
      SlugPrefix(s, |s| - 1);
      TrimForm(s[..|s| - 1]);
    }
  }

  /** A slug is in slug form. */
  lemma SlugForm(s: string)
    ensures InSlugForm(Slug(s))
  {
    SlugRunesForm(s);
    TrimForm(SlugRunes(s));
  }

  lemma {:induction false} SlugRunesOfPart(s: string)
    requires IsSlugPart(s)
    ensures SlugRunes(s) == s
  {
    if s != "" {
      var n := |s| - 1;
      SlugPrefix(s, n);
      SlugRunesOfPart(s[..n]);
      assert SlugAt(s, n);
      assert s == s[..n] + [s[n]];
    }
  }

  /** A text in slug form is its own slug. */
  lemma SlugOfSlug(s: string)
    requires InSlugForm(s)
    ensures Slug(s) == s
  {
    SlugRunesOfPart(s);
  }

  /** Two slugs with a hyphen between them, unless one is empty. */
  function Hyphened(a: string, b: string): string {
    if a == "" then b else if b == "" then a else a + "-" + b
  }

  /** A rune that is no slug character separates: the slugs of the texts around it are joined by one hyphen. With
      SlugOfSlug for texts without such runes this fixes every slug. */
  lemma SlugSeparates(a: string, c: char, b: string)
    requires !IsSlugChar(c)
    ensures Slug(a + [c] + b) == Hyphened(Slug(a), Slug(b))
  {
    RunesSeparate(a, c, b);
    SlugRunesForm(a);
    SlugRunesForm(b);
    StepEnds(SlugRunes(a), c);
    TrimBehind(SlugStep(SlugRunes(a), c), SlugRunes(b));
    if SlugRunes(a) != "" { TrimBehind(TrimHyphens(SlugRunes(a)) + "-", ""); }
  }

  lemma RunesAppend(s: string, c: char)
    ensures SlugRunes(s + [c]) == SlugStep(SlugRunes(s), c)
  {
    assert (s + [c])[..|s|] == s;
  }

  lemma {:induction false} RunesSeparate(a: string, c: char, b: string)
    requires !IsSlugChar(c)
    ensures SlugRunes(a + [c] + b) == SlugStep(SlugRunes(a), c) + SlugRunes(b)
  {
    if b == "" {
      assert a + [c] + b == a + [c];
      RunesAppend(a, c);
    } else {
      var before, last := b[..|b| - 1], b[|b| - 1];
      RunesSeparate(a, c, before);
      assert a + [c] + b == (a + [c] + before) + [last] && b == before + [last];
      RunesAppend(a + [c] + before, last);
      StepBehind(SlugStep(SlugRunes(a), c), SlugRunes(before), last);
    }
  }

  lemma StepBehind(front: string, back: string, c: char)
    requires front == "" || front[|front| - 1] == '-'
    ensures SlugStep(front + back, c) == front + SlugStep(back, c)
  {
    if back == "" { assert front + back == front; }
  }

  /** Behind a separator the slug so far ends in one hyphen, unless nothing came before. */
  lemma StepEnds(s: string, c: char)
    requires IsSlugPart(s) && !IsSlugChar(c)
    ensures if s == "" then SlugStep(s, c) == "" && TrimHyphens(s) == ""
            else SlugStep(s, c) == TrimHyphens(s) + "-" && TrimHyphens(s) != "" && InSlugForm(TrimHyphens(s))
  {
    TrimForm(s);
    if s != "" {
      assert SlugAt(s, 0) && SlugAt(s, |s| - 1);
      if s[|s| - 1] == '-' {
        assert SlugAt(s, |s| - 2);
        assert s == s[..|s| - 1] + "-";
      }
    }
  }

  lemma TrimBehind(front: string, back: string)
    requires IsSlugPart(back)
    requires front == "" || (front[|front| - 1] == '-' && |front| >= 2 && front[|front| - 2] != '-')
    ensures TrimHyphens(front + back) == if back != "" then front + TrimHyphens(back)
                                         else if front == "" then "" else front[..|front| - 1]
    ensures back != "" <==> TrimHyphens(back) != ""
  {
    if back == "" {
      assert front + back == front;
    } else {
      assert SlugAt(back, 0) && SlugAt(back, |back| - 1);
      TrimLast(back);
      TrimLast(front + back);
    }
  }

  /** A single hyphen at the end is all there is to trim. */
  lemma TrimLast(s: string)
    requires s != "" && (s[|s| - 1] == '-' ==> |s| >= 2 && s[|s| - 2] != '-')
    ensures TrimHyphens(s) == if s[|s| - 1] == '-' then s[..|s| - 1] else s
  {}

  /** The name a chat's alias is built from: its slug, or its id when that is empty, behind the slug of
      the prefix. */
  function AliasBase(slug: string -> string, name: string, id: string, prefix: string): string {
    var own := if slug(name) == "" then "chat-" + ShortId(id) else slug(name);
    if slug(prefix) == "" then own else slug(prefix) + "-" + own
  }

  function ShortId(id: string): string {
    if |id| < 8 then id else id[..8]
  }

  method GenerateChatAlias(slug: string -> string, name: string, id: string, prefix: string, taken: set<string>)
    returns (alias: string, tries: nat)
    ensures alias == FreeAlias(AliasBase(slug, name, id, prefix), taken)
    ensures alias !in taken && tries <= |taken| + 1
  {
    var base := slug(name);
    if base == "" {
      base := "chat-" + ShortId(id);
    }
    var normalizedPrefix := slug(prefix);
    if normalizedPrefix != "" {
      base := normalizedPrefix + "-" + base;
    }
    alias, tries := FirstFree(base, taken);
    FirstFreeUnique(base, taken, alias, FreeAlias(base, taken));
  }

  /** A prefix stands in front of what the name gives, and the name gives its slug or else the front of the id. */
  lemma BaseByParts(slug: string -> string, name: string, id: string, prefix: string)
    ensures slug(prefix) == "" && slug(name) != "" ==> AliasBase(slug, name, id, prefix) == slug(name)
    ensures slug(prefix) == "" && slug(name) == "" ==>
              AliasBase(slug, name, id, prefix) == "chat-" + id[..if |id| < 8 then |id| else 8]
    ensures slug(prefix) != "" ==> forall bare :: slug(bare) == "" ==>
              AliasBase(slug, name, id, prefix) == slug(prefix) + "-" + AliasBase(slug, name, id, bare)
  {
    if |id| < 8 { assert id[..|id|] == id; }
  }

  lemma JoinedSlugs(a: string, b: string)
    requires InSlugForm(a) && InSlugForm(b) && a != "" && b != ""
    ensures InSlugForm(a + "-" + b)
  {
    SlugConcat(a, "-");
    forall i | |a + "-"| <= i < |a + "-" + b|
      ensures SlugAt(a + "-" + b, i)
    {
      assert SlugAt(b, i - |a + "-"|);
    }
    SlugConcat(a + "-", b);
  }

  /** What an alias is built from is a slug, or has the mark of a chat without a usable name. */
  lemma BaseIsSlugOrChat(slug: string -> string, plain: string -> string, name: string, id: string, prefix: string)
    requires SlugsBy(slug, plain)
    ensures var base := AliasBase(slug, name, id, prefix);
            InSlugForm(base) || Contains(base, "chat-")
  {
    var own, front := slug(name), slug(prefix);
    SlugForm(plain(name));
    SlugForm(plain(prefix));
    if own != "" {
      if front != "" { JoinedSlugs(front, own); }
    } else {
      var fallback := "chat-" + ShortId(id);
      assert fallback[0..5] == "chat-" && OccursAt(fallback, "chat-", 0);
      var base := front + "-" + fallback;
      assert base[|front| + 1..|front| + 6] == "chat-" && OccursAt(base, "chat-", |front| + 1);
    }
  }
}
