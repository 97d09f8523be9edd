/** internal/mentions/parser.go: finding `@mention[...]` tokens and rewriting them into
    placeholders backed by entries of the mentions array. */
module MentionParser {
  import opened Text
  import opened MentionWire
  import opened Wrappers

  const TOKEN_PREFIX := "@mention["

  /** `[start, end)` of one token; a closed token ends just past its ']'. */
  datatype TokenSpan = TokenSpan(start: nat, end: nat, unclosed: bool)

  // ---- scanning ------------------------------------------------------------------------

  /** What a token is: the prefix, then text free of ']' and newline, then the ']' of a closed
      token, or the newline or end of the message that an unclosed one stops at. */
  predicate IsToken(msg: string, t: TokenSpan) {
    var bodyEnd := if t.unclosed then t.end else t.end - 1;
    && OccursAt(msg, TOKEN_PREFIX, t.start)
    && t.start + |TOKEN_PREFIX| <= bodyEnd && t.end <= |msg|
    && (forall k :: t.start + |TOKEN_PREFIX| <= k < bodyEnd ==> msg[k] != ']' && msg[k] != '\n')
    && (if t.unclosed then t.end == |msg| || msg[t.end] == '\n' else msg[t.end - 1] == ']')
  }

  function EndOf(spans: seq<TokenSpan>, n: nat): nat
    requires n <= |spans|
  {
    if n == 0 then 0 else spans[n - 1].end
  }

  ghost predicate NoPrefixIn(msg: string, from: int, to: int) {
    forall p :: from <= p < to ==> !OccursAt(msg, TOKEN_PREFIX, p)
  }

  /** The spans are tokens, in order and apart, and no token begins between two of them. */
  ghost predicate Tokens(msg: string, spans: seq<TokenSpan>) {
    forall k :: 0 <= k < |spans| ==> NextToken(msg, spans, k)
  }

  ghost predicate NextToken(msg: string, spans: seq<TokenSpan>, k: nat)
    requires k < |spans|
  {
    && IsToken(msg, spans[k])
    && EndOf(spans, k) <= spans[k].start
    && NoPrefixIn(msg, EndOf(spans, k), spans[k].start)
  }

  /** Scanning stops after 2 * limit tokens; the check follows the append, so one always fits. */
  function ScanLimit(limit: nat): nat {
    if limit == 0 then 1 else 2 * limit
  }

  /** What a scan promises. It determines the result, see ScanIsDetermined. */
  ghost predicate Scanned(msg: string, limit: nat, spans: seq<TokenSpan>) {
    && Tokens(msg, spans)
    && |spans| <= ScanLimit(limit)
    && (|spans| < ScanLimit(limit) ==> NoPrefixIn(msg, EndOf(spans, |spans|), |msg|))
  }

  method Scan(msg: string, limit: nat) returns (spans: seq<TokenSpan>)
    ensures Scanned(msg, limit, spans)
  {
    spans := [];
    var scanLimit := 2 * limit;
    var i := 0;
    while i < |msg|
      invariant i == EndOf(spans, |spans|) <= |msg|
      invariant Tokens(msg, spans)
      invariant |spans| == 0 || |spans| < scanLimit
      decreases |msg| - i
    {
      var idx := IndexFrom(msg, TOKEN_PREFIX, i);
      if idx < 0 {
        break;
      }
      var j := idx + |TOKEN_PREFIX|;
      while j < |msg| && msg[j] != ']' && msg[j] != '\n'
        invariant idx + |TOKEN_PREFIX| <= j <= |msg|
        invariant forall k :: idx + |TOKEN_PREFIX| <= k < j ==> msg[k] != ']' && msg[k] != '\n'
      {
        j := j + 1;
      }
      var closed := j < |msg| && msg[j] == ']';
      i := if closed then j + 1 else j;
      ghost var before := spans;
      spans := spans + [TokenSpan(idx, i, !closed)];
      forall k | 0 <= k < |spans|
        ensures NextToken(msg, spans, k)
      {
        if k < |before| {
          assert NextToken(msg, before, k);
        }
      }
      if |spans| >= scanLimit {
        break;
      }
    }
  }

  /** Each token begins after the one before it has ended. */
  lemma {:induction false} TokensApart(msg: string, spans: seq<TokenSpan>, i: nat, j: nat)
    requires Tokens(msg, spans) && i < j < |spans|
    ensures spans[i].end <= spans[j].start < spans[j].end <= |msg|
    decreases j
  {
    assert NextToken(msg, spans, j);
    if i < j - 1 { TokensApart(msg, spans, i, j - 1); }
  }

  /** An occurrence of the prefix that begins inside a token ends inside it. */
  lemma {:induction false} PrefixStaysInToken(msg: string, t: TokenSpan, p: nat)
    requires IsToken(msg, t) && OccursAt(msg, TOKEN_PREFIX, p) && t.start <= p < t.end
    ensures p + |TOKEN_PREFIX| <= t.end
  {
    if t.end < p + |TOKEN_PREFIX| {
      var at := if t.unclosed then t.end else t.end - 1;
      PartOf(msg, TOKEN_PREFIX, p, at - p);
    }
  }

  /** Below the scan limit nothing is missed: every occurrence of the prefix lies wholly inside
      one of the tokens. */
  lemma {:induction false} ScanIsComplete(msg: string, spans: seq<TokenSpan>, p: nat) returns (k: nat)
    requires Tokens(msg, spans) && NoPrefixIn(msg, EndOf(spans, |spans|), |msg|)
    requires OccursAt(msg, TOKEN_PREFIX, p)
    ensures k < |spans| && spans[k].start <= p && p + |TOKEN_PREFIX| <= spans[k].end
  {
    k := 0;
    while spans[k].end <= p
      invariant k < |spans| && EndOf(spans, k) <= p
      decreases |spans| - k
    {
      k := k + 1;
    }
    assert NextToken(msg, spans, k);
    PrefixStaysInToken(msg, spans[k], p);
  }

  /** The definition fixes the list: of two lists of tokens one is a prefix of the other. */
  lemma {:induction false} TokensUnique(msg: string, a: seq<TokenSpan>, b: seq<TokenSpan>)
    requires Tokens(msg, a) && Tokens(msg, b) && |a| <= |b|
    ensures a <= b
    decreases |a|
  {
    if a != [] {
      var n := |a| - 1;
      forall k | 0 <= k < n
        ensures NextToken(msg, a[..n], k)
      {
        assert NextToken(msg, a, k);
      }
      TokensUnique(msg, a[..n], b);
      assert NextToken(msg, a, n) && NextToken(msg, b, n);
      assert EndOf(a, n) == EndOf(b, n) by {
        if n > 0 { assert a[..n][n - 1] == b[n - 1]; }
      }
      SameToken(msg, a[n], b[n]);
      assert a == a[..n] + [a[n]];
    }
  }

  lemma ScanIsDetermined(msg: string, limit: nat, a: seq<TokenSpan>, b: seq<TokenSpan>)
    requires Scanned(msg, limit, a) && Scanned(msg, limit, b)
    ensures a == b
  {
    if |a| <= |b| { LongerScanAddsNothing(msg, limit, a, b); } else { LongerScanAddsNothing(msg, limit, b, a); }
  }

  lemma LongerScanAddsNothing(msg: string, limit: nat, a: seq<TokenSpan>, b: seq<TokenSpan>)
    requires Scanned(msg, limit, a) && Scanned(msg, limit, b) && |a| <= |b|
    ensures a == b
  {
    TokensUnique(msg, a, b);
    if |a| < |b| { MoreToFind(msg, a, b); }
  }

  lemma MoreToFind(msg: string, a: seq<TokenSpan>, b: seq<TokenSpan>)
    requires Tokens(msg, b) && a < b
    ensures !NoPrefixIn(msg, EndOf(a, |a|), |msg|)
  {
    assert NextToken(msg, b, |a|);
    assert EndOf(b, |a|) == EndOf(a, |a|) by {
      if a != [] { assert a[|a| - 1] == b[|a| - 1]; }
    }
  }

  lemma SameToken(msg: string, s: TokenSpan, t: TokenSpan)
    requires IsToken(msg, s) && IsToken(msg, t) && s.start == t.start
    ensures s == t
  {
    var sEnd := if s.unclosed then s.end else s.end - 1;
    var tEnd := if t.unclosed then t.end else t.end - 1;
    var atS := if sEnd < |msg| then msg[sEnd] else '\n';
    var atT := if tEnd < |msg| then msg[tEnd] else '\n';
    assert (atS == ']' || atS == '\n') && (atT == ']' || atT == '\n');
  }

  // ---- the text between the brackets -----------------------------------------------------

  datatype Resolver = Email | Huid | All

  datatype ParsedToken = ParsedToken(resolver: Resolver, value: string, displayName: string)

  datatype BodyError =
    | UnknownResolver(name: string)
    | AllTakesNoValue
    | RawSemicolon
    | BadEncoding
    | EmptyValue(resolver: Resolver)

  datatype BodyResult = Body(token: ParsedToken) | BadBody(error: BodyError)

  function ResolverName(r: Resolver): string {
    match r
    case Email => "email"
    case Huid => "huid"
    case All => "all"
  }

  /** url.QueryUnescape is a parameter: None is an invalid encoding. */
  type Unescape = string -> Option<string>

  function ParseTokenBody(body: string, unescape: Unescape): BodyResult {
    if body == "all" then Body(ParsedToken(All, "", "")) else
    var colon := IndexFrom(body, ":", 0);
    if colon < 0 then
      if "all;" <= body then BadBody(AllTakesNoValue) else BadBody(UnknownResolver(body))
    else
      var name := body[..colon];
      if name == "email" then ParseValue(Email, body[colon + 1..], unescape)
      else if name == "huid" then ParseValue(Huid, body[colon + 1..], unescape)
      else BadBody(UnknownResolver(name))
  }

  function ParseValue(resolver: Resolver, rest: string, unescape: Unescape): BodyResult {
    var semi := IndexFrom(rest, ";", 0);
    if semi < 0 then FinishBody(resolver, rest, "") else
    var raw := rest[semi + 1..];
    if IndexFrom(raw, ";", 0) >= 0 then BadBody(RawSemicolon) else
    match unescape(raw)
    case None => BadBody(BadEncoding)
    case Some(name) => FinishBody(resolver, rest[..semi], name)
  }

  function FinishBody(resolver: Resolver, value: string, displayName: string): BodyResult {
    if value == "" then BadBody(EmptyValue(resolver)) else Body(ParsedToken(resolver, value, displayName))
  }

  /** The grammar of a token body, read the other way: how a token may be written. */
  ghost predicate Writes(body: string, t: ParsedToken, unescape: Unescape) {
    if t.resolver == All then
      t == ParsedToken(All, "", "") && body == "all"
    else
      var head := ResolverName(t.resolver) + ":";
      head <= body && WritesValue(body[|head|..], t, unescape)
  }

  ghost predicate WritesValue(rest: string, t: ParsedToken, unescape: Unescape) {
    && t.value != "" && ';' !in t.value
    && (|| (t.displayName == "" && rest == t.value)
        || exists encoded :: ';' !in encoded && unescape(encoded) == Some(t.displayName)
                             && rest == t.value + ";" + encoded)
  }

  lemma {:induction false} ParseValueInverts(resolver: Resolver, rest: string, t: ParsedToken, unescape: Unescape)
    ensures ParseValue(resolver, rest, unescape) == Body(t) <==>
            t.resolver == resolver && WritesValue(rest, t, unescape)
  {
    if ParseValue(resolver, rest, unescape) == Body(t) {
      ParsedValueIsWritten(resolver, rest, t, unescape);
    }
    if t.resolver == resolver && WritesValue(rest, t, unescape) {
      if rest != t.value { WrittenValueParses(rest, t, unescape); } else { IndexOfChar(rest, ';'); }
    }
  }

  lemma ParsedValueIsWritten(resolver: Resolver, rest: string, t: ParsedToken, unescape: Unescape)
    requires ParseValue(resolver, rest, unescape) == Body(t)
    ensures t.resolver == resolver && WritesValue(rest, t, unescape)
  {
    var semi := IndexFrom(rest, ";", 0);
    if semi < 0 {
      IndexOfChar(rest, ';');
    } else {
      NamedParts(resolver, rest, t, unescape, semi);
      SplitHere(rest, semi);
      NamedValue(rest, t, unescape, rest[semi + 1..]);
    }
  }

  lemma NamedParts(resolver: Resolver, rest: string, t: ParsedToken, unescape: Unescape, semi: nat)
    requires semi == IndexFrom(rest, ";", 0) && ParseValue(resolver, rest, unescape) == Body(t)
    ensures semi < |rest| && rest[semi] == ';' && t.resolver == resolver
    ensures t.value == rest[..semi] != "" && ';' !in t.value
    ensures ';' !in rest[semi + 1..] && unescape(rest[semi + 1..]) == Some(t.displayName)
  {
    IndexOfChar(rest, ';');
    IndexOfChar(rest[semi + 1..], ';');
  }

  lemma NamedValue(rest: string, t: ParsedToken, unescape: Unescape, encoded: string)
    requires t.value != "" && ';' !in t.value && ';' !in encoded
    requires unescape(encoded) == Some(t.displayName) && rest == t.value + ";" + encoded
    ensures WritesValue(rest, t, unescape)
  {}

  lemma SplitHere(s: string, i: nat)
    requires i < |s|
    ensures s == s[..i] + [s[i]] + s[i + 1..]
  {}

  lemma WrittenValueParses(rest: string, t: ParsedToken, unescape: Unescape)
    requires WritesValue(rest, t, unescape) && rest != t.value
    ensures ParseValue(t.resolver, rest, unescape) == Body(t)
  {
    var encoded :| ';' !in encoded && unescape(encoded) == Some(t.displayName) && rest == t.value + ";" + encoded;
    SplitAtFirst(rest, t.value, ';', encoded);
    IndexOfChar(encoded, ';');
  }

  lemma ParsedBodyIsWritten(body: string, t: ParsedToken, unescape: Unescape)
    requires ParseTokenBody(body, unescape) == Body(t)
    ensures Writes(body, t, unescape)
  {
    if body != "all" {
      var colon := NameInFront(body, t, unescape);
      SplitHere(body, colon);
      assert body[colon + 1..] == body[|ResolverName(t.resolver) + ":"|..];
    }
  }

  /** What the parser accepts has the name of a resolver in front of its first colon. */
  lemma NameInFront(body: string, t: ParsedToken, unescape: Unescape) returns (colon: nat)
    requires ParseTokenBody(body, unescape) == Body(t) && body != "all"
    ensures colon < |body| && body[colon] == ':' && t.resolver != All && body[..colon] == ResolverName(t.resolver)
    ensures WritesValue(body[colon + 1..], t, unescape)
  {
    IndexOfChar(body, ':');
    colon := IndexFrom(body, ":", 0);
    var resolver := NamedResolver(body, t, unescape, colon);
    ParseValueInverts(resolver, body[colon + 1..], t, unescape);
  }

  lemma NamedResolver(body: string, t: ParsedToken, unescape: Unescape, colon: nat) returns (resolver: Resolver)
    requires ParseTokenBody(body, unescape) == Body(t) && body != "all" && colon == IndexFrom(body, ":", 0) < |body|
    ensures resolver != All && body[..colon] == ResolverName(resolver)
    ensures ParseValue(resolver, body[colon + 1..], unescape) == Body(t)
  {
    resolver := if body[..colon] == "email" then Email else Huid;
  }

  lemma WrittenBodyParses(body: string, t: ParsedToken, unescape: Unescape)
    requires Writes(body, t, unescape)
    ensures ParseTokenBody(body, unescape) == Body(t)
  {
    if t.resolver != All {
      var name := ResolverName(t.resolver);
      var rest := body[|name| + 1..];
      assert body == name + ":" + rest;
      SplitAtFirst(body, name, ':', rest);
      ParseValueInverts(t.resolver, rest, t, unescape);
    }
  }

  /** The parser accepts exactly the bodies the grammar writes, and reads back what was written. */
  lemma {:induction false} ParseInvertsWrite(body: string, t: ParsedToken, unescape: Unescape)
    ensures ParseTokenBody(body, unescape) == Body(t) <==> Writes(body, t, unescape)
  {
    if ParseTokenBody(body, unescape) == Body(t) {
      ParsedBodyIsWritten(body, t, unescape);
    }
    if Writes(body, t, unescape) {
      WrittenBodyParses(body, t, unescape);
    }
  }

  // ---- why a body is rejected ----------------------------------------------------------------

  ghost predicate ValueOf(body: string, resolver: Resolver, rest: string) {
    resolver != All && body == ResolverName(resolver) + ":" + rest
  }

  ghost predicate Parts(body: string, resolver: Resolver, value: string, encoded: string) {
    ValueOf(body, resolver, value + ";" + encoded) && ';' !in value
  }

  /** What each error says about the body, in terms of the grammar. The cases exclude each other. */
  ghost predicate Explains(error: BodyError, body: string, unescape: Unescape) {
    match error
    case UnknownResolver(name) =>
      ':' !in name && if name == body then body != "all" && !("all;" <= body)
                      else name + ":" <= body && name != "email" && name != "huid"
    case AllTakesNoValue => ':' !in body && "all;" <= body
    case RawSemicolon => exists r, value, more :: Parts(body, r, value, more) && ';' in more
    case BadEncoding => exists r, value, encoded ::
      Parts(body, r, value, encoded) && ';' !in encoded && unescape(encoded) == None
    case EmptyValue(r) =>
      || ValueOf(body, r, "")
      || exists encoded :: Parts(body, r, "", encoded) && ';' !in encoded && unescape(encoded).Some?
  }

  /** A rejected body is rejected for a reason that is true of it. */
  lemma RejectionIsExplained(body: string, unescape: Unescape)
    requires ParseTokenBody(body, unescape).BadBody?
    ensures Explains(ParseTokenBody(body, unescape).error, body, unescape)
  {
    IndexOfChar(body, ':');
    var colon := IndexFrom(body, ":", 0);
    if colon >= 0 {
      SplitHere(body, colon);
      if body[..colon] == "email" {
        ValueIsExplained(body, Email, body[colon + 1..], unescape);
      } else if body[..colon] == "huid" {
        ValueIsExplained(body, Huid, body[colon + 1..], unescape);
      }
    }
  }

  lemma ValueIsExplained(body: string, resolver: Resolver, rest: string, unescape: Unescape)
    requires ValueOf(body, resolver, rest) && ParseValue(resolver, rest, unescape).BadBody?
    ensures Explains(ParseValue(resolver, rest, unescape).error, body, unescape)
  {
    var semi := IndexFrom(rest, ";", 0);
    var r := ParseValue(resolver, rest, unescape);
    if semi < 0 {
      assert r == BadBody(EmptyValue(resolver)) && rest == "";
      EmptyIsExplained(body, resolver, unescape);
    } else {
      SplitAtSemicolon(rest);
      assert Parts(body, resolver, rest[..semi], rest[semi + 1..]);
      NameIsExplained(body, resolver, rest[..semi], rest[semi + 1..], unescape, r);
    }
  }

  lemma EmptyIsExplained(body: string, resolver: Resolver, unescape: Unescape)
    requires ValueOf(body, resolver, "")
    ensures Explains(EmptyValue(resolver), body, unescape)
  {}

  lemma SplitAtSemicolon(rest: string)
    requires IndexFrom(rest, ";", 0) >= 0
    ensures var semi := IndexFrom(rest, ";", 0);
            semi < |rest| && ';' !in rest[..semi] && rest == rest[..semi] + ";" + rest[semi + 1..]
  {
    IndexOfChar(rest, ';');
    SplitHere(rest, IndexFrom(rest, ";", 0));
  }

  lemma NameIsExplained(body: string, resolver: Resolver, value: string, encoded: string, unescape: Unescape,
                        r: BodyResult)
    requires Parts(body, resolver, value, encoded) && r.BadBody?
    requires r == if IndexFrom(encoded, ";", 0) >= 0 then BadBody(RawSemicolon) else
                  match unescape(encoded) case None => BadBody(BadEncoding)
                                          case Some(name) => FinishBody(resolver, value, name)
    ensures Explains(r.error, body, unescape)
  {
    IndexOfChar(encoded, ';');
    if r.error.EmptyValue? { assert Parts(body, resolver, "", encoded); }
  }
}
