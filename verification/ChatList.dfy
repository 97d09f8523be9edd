/** Chat lists in requests: parseChatIDs and sameChats of internal/server/multisend.go, and the join that
    internal/server/handler_send.go makes of a parsed list. */
module ChatList {
  import opened Lists

  /** What strings.TrimSpace trims; a comma is not space. */
  type IsSpace = char -> bool

  function TrimLeft(space: IsSpace, s: string): string {
    if s != "" && space(s[0]) then TrimLeft(space, s[1..]) else s
  }

  function TrimRight(space: IsSpace, s: string): string {
    if s != "" && space(s[|s| - 1]) then TrimRight(space, s[..|s| - 1]) else s
  }

  function Trim(space: IsSpace, s: string): string {
    TrimRight(space, TrimLeft(space, s))
  }

  /** strings.Split(s, ",") */
  function Split(s: string): (parts: seq<string>)
    ensures parts != []
  {
    if s == "" then [""] else
      var rest := Split(s[1..]);
      if s[0] == ',' then [""] + rest else [[s[0]] + rest[0]] + rest[1..]
  }

  /** strings.Join(parts, ",") */
  function Join(parts: seq<string>): string {
    if parts == [] then ""
    else if |parts| == 1 then parts[0]
    else parts[0] + "," + Join(parts[1..])
  }

  /** The trimmed entries that are not empty. */
  function Entries(space: IsSpace, parts: seq<string>): seq<string> {
    if parts == [] then [] else
      var n := |parts| - 1;
      var chat := Trim(space, parts[n]);
      Entries(space, parts[..n]) + if chat == "" then [] else [chat]
  }

  lemma EntriesAppend(space: IsSpace, parts: seq<string>, i: nat)
    requires i < |parts|
    ensures var chat, entries := Trim(space, parts[i]), Entries(space, parts[..i]);
            Dedup(Entries(space, parts[..i + 1]))
            == if chat == "" || chat in Dedup(entries) then Dedup(entries) else Dedup(entries) + [chat]
  {
    assert parts[..i + 1][..i] == parts[..i];
    var chat, entries := Trim(space, parts[i]), Entries(space, parts[..i]);
    if chat == "" {
      assert entries + [] == entries;
    } else {
      DedupAppend(entries, chat);
      assert Dedup(entries) + [] == Dedup(entries);
    }
  }

  method ParseChatIDs(space: IsSpace, raw: string) returns (out: seq<string>)
    ensures out == Dedup(Entries(space, Split(raw)))
  {
    var parts := Split(raw);
    out := [];
    var seen: set<string> := {};
    for i := 0 to |parts|
      invariant out == Dedup(Entries(space, parts[..i]))
      invariant forall c :: c in seen <==> c in out
    {
      var chat := Trim(space, parts[i]);
      EntriesAppend(space, parts, i);
      if chat == "" {
        continue;
      }
      if chat in seen {
        continue;
      }
      seen := seen + {chat};
      out := out + [chat];
    }
    assert parts[..|parts|] == parts;
  }

  /** An entry as parsing leaves it: not empty, without commas, without space at either end. */
  ghost predicate Clean(space: IsSpace, chat: string) {
    chat != "" && ',' !in chat && !space(chat[0]) && !space(chat[|chat| - 1])
  }

  lemma {:induction false} TrimmedIsClean(space: IsSpace, s: string)
    requires ',' !in s
    ensures Trim(space, s) == "" || Clean(space, Trim(space, s))
  {
    TrimLeftKeeps(space, s);
    TrimRightKeeps(space, TrimLeft(space, s));
  }

  lemma {:induction false} TrimLeftKeeps(space: IsSpace, s: string)
    ensures TrimLeft(space, s) == "" || !space(TrimLeft(space, s)[0])
    ensures forall c :: c in TrimLeft(space, s) ==> c in s
  {
    if s != "" && space(s[0]) { TrimLeftKeeps(space, s[1..]); }
  }

  lemma {:induction false} TrimRightKeeps(space: IsSpace, s: string)
    ensures var t := TrimRight(space, s); t <= s && (t == "" || !space(t[|t| - 1]))
  {
    if s != "" && space(s[|s| - 1]) { TrimRightKeeps(space, s[..|s| - 1]); }
  }

  /** Trimming takes exactly the space off both ends. */
  lemma TrimExactly(space: IsSpace, s: string) returns (i: nat, j: nat)
    ensures i <= j <= |s| && Trim(space, s) == s[i..j]
    ensures forall k :: 0 <= k < i || j <= k < |s| ==> space(s[k])
    ensures i < j ==> !space(s[i]) && !space(s[j - 1])
  {
    i := LeftEnd(space, s);
    var n := RightEnd(space, s[i..]);
    j := i + n;
  }

  lemma {:induction false} LeftEnd(space: IsSpace, s: string) returns (i: nat)
    ensures i <= |s| && TrimLeft(space, s) == s[i..]
    ensures (forall k :: 0 <= k < i ==> space(s[k])) && (i < |s| ==> !space(s[i]))
  {
    i := 0;
    if s != "" && space(s[0]) {
      i := LeftEnd(space, s[1..]);
      i := i + 1;
      assert forall k :: 1 <= k < i ==> s[k] == s[1..][k - 1];
    }
  }

  lemma {:induction false} RightEnd(space: IsSpace, s: string) returns (n: nat)
    ensures n <= |s| && TrimRight(space, s) == s[..n]
    ensures (forall k :: n <= k < |s| ==> space(s[k])) && (n > 0 ==> !space(s[n - 1]))
  {
    n := |s|;
    if s != "" && space(s[|s| - 1]) { n := RightEnd(space, s[..|s| - 1]); }
  }

  /** The parts joined again are the text: nothing is lost between the commas. */
  lemma {:induction false} JoinInvertsSplit(s: string)
    ensures Join(Split(s)) == s
  {
    if s != "" {
      var rest := Split(s[1..]);
      JoinInvertsSplit(s[1..]);
      assert s == [s[0]] + s[1..];
      if s[0] == ',' {
        assert ([""] + rest)[1..] == rest;
      } else {
        JoinFirst(s[0], rest);
      }
    }
  }

  lemma JoinFirst(c: char, parts: seq<string>)
    requires parts != []
    ensures Join([[c] + parts[0]] + parts[1..]) == [c] + Join(parts)
  {
    var longer := [[c] + parts[0]] + parts[1..];
    assert longer[1..] == parts[1..];
    if |parts| > 1 {
      var more := "," + Join(parts[1..]);
      assert ([c] + parts[0]) + more == [c] + (parts[0] + more);
    }
  }

  /** The entries come part after part, each trimmed, the empty ones left out. */
  lemma {:induction false} EntriesPartByPart(space: IsSpace, front: seq<string>, part: string, back: seq<string>)
    ensures var chat := Trim(space, part);
            Entries(space, front + [part] + back)
            == Entries(space, front) + (if chat == "" then [] else [chat]) + Entries(space, back)
  {
    if back == [] {
      assert front + [part] + back == front + [part];
      OneMoreEntry(space, front, part);
    } else {
      var before, last := back[..|back| - 1], back[|back| - 1];
      LastBehind(front + [part], back);
      EntriesPartByPart(space, front, part, before);
      OneMoreEntry(space, front + [part] + before, last);
      OneMoreEntry(space, before, last);
    }
  }

  lemma OneMoreEntry(space: IsSpace, parts: seq<string>, part: string)
    ensures var chat := Trim(space, part);
            Entries(space, parts + [part]) == Entries(space, parts) + if chat == "" then [] else [chat]
  {
    assert (parts + [part])[..|parts|] == parts;
  }

  lemma {:induction false} SplitHasNoComma(s: string)
    ensures forall p :: p in Split(s) ==> ',' !in p
  {
    if s != "" {
      SplitHasNoComma(s[1..]);
      var rest := Split(s[1..]);
      assert rest[0] in rest && forall p :: p in rest[1..] ==> p in rest;
    }
  }

  lemma {:induction false} EntriesAreClean(space: IsSpace, parts: seq<string>)
    requires forall p :: p in parts ==> ',' !in p
    ensures forall c :: c in Entries(space, parts) ==> Clean(space, c)
  {
    if parts != [] {
      var n := |parts| - 1;
      assert parts[n] in parts && forall p :: p in parts[..n] ==> p in parts;
      EntriesAreClean(space, parts[..n]);
      TrimmedIsClean(space, parts[n]);
    }
  }

  lemma {:induction false} SplitPart(part: string, rest: string)
    requires ',' !in part
    ensures Split(part + "," + rest) == [part] + Split(rest)
    ensures Split(part) == [part]
  {
    if part == "" {
      assert part + "," + rest == "," + rest;
      assert ("," + rest)[1..] == rest;
    } else {
      assert part[0] in part && forall c :: c in part[1..] ==> c in part;
      SplitPart(part[1..], rest);
      assert (part + "," + rest)[1..] == part[1..] + "," + rest;
      assert [part[0]] + part[1..] == part;
    }
  }

  lemma {:induction false} SplitInvertsJoin(parts: seq<string>)
    requires parts != [] && forall p :: p in parts ==> ',' !in p
    ensures Split(Join(parts)) == parts
  {
    assert parts[0] in parts;
    if |parts| == 1 {
      SplitPart(parts[0], "");
    } else {
      assert forall p :: p in parts[1..] ==> p in parts;
      SplitInvertsJoin(parts[1..]);
      SplitPart(parts[0], Join(parts[1..]));
    }
  }

  lemma TrimOfClean(space: IsSpace, chat: string)
    requires Clean(space, chat)
    ensures Trim(space, chat) == chat
  {}

  lemma {:induction false} EntriesOfClean(space: IsSpace, parts: seq<string>)
    requires forall p :: p in parts ==> Clean(space, p)
    ensures Entries(space, parts) == parts
  {
    if parts != [] {
      var n := |parts| - 1;
      assert parts[n] in parts && forall p :: p in parts[..n] ==> p in parts;
      EntriesOfClean(space, parts[..n]);
      TrimOfClean(space, parts[n]);
      LastAppended(parts);
    }
  }

  lemma LastAppended<T>(s: seq<T>)
    requires s != []
    ensures s == s[..|s| - 1] + [s[|s| - 1]]
  {}

  /** Joining a parsed list and parsing it again gives the same list, also when it is empty. */
  lemma ParseJoinParse(space: IsSpace, raw: string)
    ensures var chats := Dedup(Entries(space, Split(raw)));
            Dedup(Entries(space, Split(Join(chats)))) == chats
  {
    var chats := Dedup(Entries(space, Split(raw)));
    SplitHasNoComma(raw);
    EntriesAreClean(space, Split(raw));
    DedupDistinct(Entries(space, Split(raw)));
    if chats == [] {
      assert Split("") == [""] && Trim(space, "") == "";
      assert [""][..0] == [];
      assert Entries(space, [""]) == [];
    } else {
      SplitInvertsJoin(chats);
      EntriesOfClean(space, chats);
      DedupOfDistinct(chats);
    }
  }

  method SameChats(a: seq<string>, b: seq<string>) returns (same: bool)
    ensures same <==> |a| == |b| && forall c :: c in b ==> c in a
  {
    if |a| != |b| {
      return false;
    }
    var members := set c | c in a;
    for i := 0 to |b|
      invariant forall c :: c in b[..i] ==> c in a
    {
      if b[i] !in members {
        return false;
      }
    }
    assert b[..|b|] == b;
    return true;
  }

  lemma {:induction false} DistinctSize(s: seq<string>)
    requires Distinct(s)
    ensures |set c | c in s| == |s|
  {
    if s != [] {
      var n := |s| - 1;
      DistinctSize(s[..n]);
      assert s == s[..n] + [s[n]];
      assert (set c | c in s) == (set c | c in s[..n]) + {s[n]};
    }
  }

  lemma {:induction false} SubsetOfSameSize(a: set<string>, b: set<string>)
    requires b <= a && |a| == |b|
    ensures a == b
  {
    if b == {} {
      assert a == {};
    } else {
      var x :| x in b;
      SubsetOfSameSize(a - {x}, b - {x});
      assert a == (a - {x}) + {x} && b == (b - {x}) + {x};
    }
  }

  /** For parsed lists what sameChats tests is equality of the sets of chats, in any order. */
  lemma SameChatsIsSetEquality(a: seq<string>, b: seq<string>)
    requires Distinct(a) && Distinct(b)
    ensures (|a| == |b| && forall c :: c in b ==> c in a) <==> (set c | c in a) == (set c | c in b)
  {
    DistinctSize(a);
    DistinctSize(b);
    var x, y := set c | c in a, set c | c in b;
    if |a| == |b| && forall c :: c in b ==> c in a {
      SubsetOfSameSize(x, y);
    }
    if x == y {
      forall c | c in b ensures c in a { assert c in y; }
    }
  }
}
