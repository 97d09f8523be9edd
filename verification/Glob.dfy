/** globMatch of internal/server/gitlab_routing.go: matching with `*` wildcards by splitting the
    pattern and looking for the pieces from left to right. */
module Glob {
  import opened Text

  /** The meaning of a pattern, one character at a time: `*` stands for any text, every other
      character for itself. */
  ghost predicate Denotes(pattern: string, value: string) {
    if pattern == "" then value == ""
    else if pattern[0] == '*' then exists k :: 0 <= k <= |value| && Denotes(pattern[1..], value[k..])
    else value != "" && value[0] == pattern[0] && Denotes(pattern[1..], value[1..])
  }

  /** strings.Split(pattern, "*") */
  function Segments(pattern: string): (parts: seq<string>)
    ensures parts != []
    ensures |parts| == 1 <==> '*' !in pattern
    ensures forall i :: 0 <= i < |parts| ==> '*' !in parts[i]
    ensures Joined(parts) == pattern
    decreases |pattern|
  {
    var i := IndexFrom(pattern, "*", 0);
    if i < 0 then
      assert '*' !in pattern by { IndexOfChar(pattern, '*'); }
      [pattern]
    else
      assert '*' !in pattern[..i] && pattern == pattern[..i] + "*" + pattern[i + 1..] by { IndexOfChar(pattern, '*'); }
      var rest := Segments(pattern[i + 1..]);
      assert ([pattern[..i]] + rest)[1..] == rest;
      [pattern[..i]] + rest
  }

  function Joined(parts: seq<string>): string
    requires parts != []
  {
    if |parts| == 1 then parts[0] else parts[0] + "*" + Joined(parts[1..])
  }

  /** The pieces stand in `value` in order, anything before each of them, the last at the end. */
  ghost predicate InOrder(parts: seq<string>, value: string)
    requires parts != []
  {
    if |parts| == 1 then
      EndsWith(value, parts[0])
    else
      exists k :: OccursAt(value, parts[0], k) && InOrder(parts[1..], value[k + |parts[0]|..])
  }

  predicate EndsWith(value: string, tail: string) {
    |tail| <= |value| && value[|value| - |tail|..] == tail
  }

  /** Text in front never hurts: the first gap absorbs it. */
  lemma {:induction false} GapAbsorbs(parts: seq<string>, value: string, from: nat)
    requires parts != [] && from <= |value| && InOrder(parts, value[from..])
    ensures InOrder(parts, value)
  {
    var v := value[from..];
    if |parts| > 1 {
      var k :| OccursAt(v, parts[0], k) && InOrder(parts[1..], v[k + |parts[0]|..]);
      assert value[from + k..from + k + |parts[0]|] == v[k..k + |parts[0]|];
      assert value[from + k + |parts[0]|..] == v[k + |parts[0]|..];
      assert OccursAt(value, parts[0], from + k);
    }
  }

  /** The leftmost choice for a piece never loses a match. */
  lemma {:induction false} LeftmostIsEnough(parts: seq<string>, value: string)
    requires |parts| > 1
    ensures var first := IndexFrom(value, parts[0], 0);
            InOrder(parts, value) <==> first >= 0 && InOrder(parts[1..], value[first + |parts[0]|..])
  {
    var first := IndexFrom(value, parts[0], 0);
    if InOrder(parts, value) {
      var k :| OccursAt(value, parts[0], k) && InOrder(parts[1..], value[k + |parts[0]|..]);
      assert first <= k;
      var rest := value[first + |parts[0]|..];
      assert rest[k - first..] == value[k + |parts[0]|..];
      GapAbsorbs(parts[1..], rest, k - first);
    }
  }

  lemma {:induction false} LiteralHead(literal: string, rest: string, value: string)
    requires '*' !in literal
    ensures Denotes(literal + rest, value) <==> literal <= value && Denotes(rest, value[|literal|..])
  {
    if literal == "" {
      assert literal + rest == rest && value[0..] == value;
    } else {
      assert literal[0] in literal;
      assert (literal + rest)[1..] == literal[1..] + rest;
      if value != "" && value[0] == literal[0] {
        LiteralHead(literal[1..], rest, value[1..]);
        if literal[1..] <= value[1..] {
          assert value[1..][|literal| - 1..] == value[|literal|..];
        }
        assert literal <= value <==> literal[1..] <= value[1..];
      }
    }
  }

  lemma PieceAt(piece: string, tail: string, value: string, k: nat)
    requires '*' !in piece && k <= |value|
    ensures Denotes(piece + tail, value[k..]) <==> OccursAt(value, piece, k) && Denotes(tail, value[k + |piece|..])
  {
    LiteralHead(piece, tail, value[k..]);
    if k + |piece| <= |value| {
      assert value[k..][..|piece|] == value[k..k + |piece|];
      assert value[k..][|piece|..] == value[k + |piece|..];
    }
  }

  /** A star followed by a piece looks for an occurrence of the piece. */
  lemma StarSearches(piece: string, tail: string, value: string)
    requires '*' !in piece
    ensures Denotes("*" + (piece + tail), value) <==>
            exists k :: OccursAt(value, piece, k) && Denotes(tail, value[k + |piece|..])
  {
    var pattern := "*" + (piece + tail);
    assert pattern[1..] == piece + tail;
    assert Denotes(pattern, value) <==> exists k :: 0 <= k <= |value| && Denotes(piece + tail, value[k..]);
    if Denotes(pattern, value) {
      var k :| 0 <= k <= |value| && Denotes(piece + tail, value[k..]);
      PieceAt(piece, tail, value, k);
    }
    if k :| OccursAt(value, piece, k) && Denotes(tail, value[k + |piece|..]) {
      PieceAt(piece, tail, value, k);
      assert Denotes(piece + tail, value[k..]);
    }
  }

  lemma OnePiece(piece: string, value: string)
    requires '*' !in piece
    ensures Denotes("*" + piece, value) <==> EndsWith(value, piece)
  {
    assert piece + "" == piece;
    StarSearches(piece, "", value);
    LastPiece(piece, value);
  }

  /** A pattern that begins with `*` denotes the texts in which its pieces stand in order. */
  lemma {:induction false} StarDenotesInOrder(parts: seq<string>, value: string)
    requires parts != [] && forall i :: 0 <= i < |parts| ==> '*' !in parts[i]
    ensures Denotes("*" + Joined(parts), value) <==> InOrder(parts, value)
    decreases |parts|
  {
    if |parts| == 1 {
      OnePiece(parts[0], value);
    } else {
      var tail := "*" + Joined(parts[1..]);
      assert parts[0] + "*" + Joined(parts[1..]) == parts[0] + tail;
      StarSearches(parts[0], tail, value);
      forall k | OccursAt(value, parts[0], k)
        ensures Denotes(tail, value[k + |parts[0]|..]) <==> InOrder(parts[1..], value[k + |parts[0]|..])
      {
        StarDenotesInOrder(parts[1..], value[k + |parts[0]|..]);
      }
    }
  }

  lemma LastPiece(last: string, value: string)
    ensures EndsWith(value, last) <==> exists k :: OccursAt(value, last, k) && value[k + |last|..] == ""
  {
    if EndsWith(value, last) {
      var k := |value| - |last|;
      assert value[k..k + |last|] == value[k..];
      assert OccursAt(value, last, k);
    }
    if k :| OccursAt(value, last, k) && value[k + |last|..] == "" {
      assert k + |last| == |value|;
      assert value[k..k + |last|] == value[k..];
    }
  }

  lemma LiteralDenotesItself(pattern: string, value: string)
    requires '*' !in pattern
    ensures Denotes(pattern, value) <==> pattern == value
  {
    LiteralHead(pattern, "", value);
    assert pattern + "" == pattern;
    if pattern <= value { assert value == pattern + value[|pattern|..]; }
  }

  /** What the two ends of a split pattern say: no star at all, or a literal head and pieces to
      be found in order behind it. */
  lemma PatternByParts(pattern: string, value: string)
    ensures var parts := Segments(pattern);
            if |parts| == 1 then Denotes(pattern, value) <==> pattern == value
            else Denotes(pattern, value) <==> parts[0] <= value && InOrder(parts[1..], value[|parts[0]|..])
  {
    var parts := Segments(pattern);
    if |parts| == 1 {
      LiteralDenotesItself(pattern, value);
    } else {
      var tail := "*" + Joined(parts[1..]);
      assert pattern == parts[0] + tail;
      LiteralHead(parts[0], tail, value);
      if parts[0] <= value {
        StarDenotesInOrder(parts[1..], value[|parts[0]|..]);
      }
    }
  }

  lemma NextPiece(parts: seq<string>, i: nat, rest: string)
    requires i + 1 < |parts|
    ensures var idx := IndexFrom(rest, parts[i], 0);
            InOrder(parts[i..], rest) <==> idx >= 0 && InOrder(parts[i + 1..], rest[idx + |parts[i]|..])
  {
    assert parts[i..][1..] == parts[i + 1..];
    LeftmostIsEnough(parts[i..], rest);
  }

  /** The pieces behind the first star, each at its earliest place, the last at the end. */
  method FindInOrder(parts: seq<string>, value: string) returns (found: bool)
    requires parts != []
    ensures found <==> InOrder(parts, value)
  {
    var rest := value;
    var i := 0;
    while i < |parts| - 1
      invariant 0 <= i < |parts|
      invariant InOrder(parts[i..], rest) <==> InOrder(parts, value)
    {
      var idx := IndexFrom(rest, parts[i], 0);
      NextPiece(parts, i, rest);
      if idx < 0 {
        return false;
      }
      rest := rest[idx + |parts[i]|..];
      i := i + 1;
    }
    assert parts[i..] == [parts[|parts| - 1]];
    return EndsWith(rest, parts[|parts| - 1]);
  }

  method GlobMatch(pattern: string, value: string) returns (matched: bool)
    ensures matched <==> Denotes(pattern, value)
  {
    var parts := Segments(pattern);
    PatternByParts(pattern, value);
    if |parts| == 1 {
      return pattern == value;
    }
    if !(parts[0] <= value) {
      return false;
    }
    matched := FindInOrder(parts[1..], value[|parts[0]|..]);
  }

  /** The pieces with `gaps[i]` written at the i-th star. */
  function Filled(parts: seq<string>, gaps: seq<string>): string
    requires |parts| == |gaps| + 1
  {
    if gaps == [] then parts[0] else parts[0] + gaps[0] + Filled(parts[1..], gaps[1..])
  }

  /** A value matches exactly when it is the pattern with some text written at each star. */
  lemma {:induction false} MatchIsFilling(pattern: string, value: string)
    ensures Denotes(pattern, value) <==>
            exists gaps :: |Segments(pattern)| == |gaps| + 1 && value == Filled(Segments(pattern), gaps)
  {
    var parts := Segments(pattern);
    if gaps :| |parts| == |gaps| + 1 && value == Filled(parts, gaps) {
      FillingMatches(parts, gaps);
    }
    if Denotes(pattern, value) {
      var gaps := FindFilling(parts, value);
    }
  }

  lemma {:induction false} FillingMatches(parts: seq<string>, gaps: seq<string>)
    requires |parts| == |gaps| + 1 && forall i :: 0 <= i < |parts| ==> '*' !in parts[i]
    ensures Denotes(Joined(parts), Filled(parts, gaps))
    decreases |gaps|
  {
    var value := Filled(parts, gaps);
    if gaps == [] {
      LiteralHead(parts[0], "", value);
      assert parts[0] + "" == parts[0];
    } else {
      FillingMatches(parts[1..], gaps[1..]);
      var tail := "*" + Joined(parts[1..]);
      assert Joined(parts) == parts[0] + tail;
      LiteralHead(parts[0], tail, value);
      var rest := value[|parts[0]|..];
      assert rest[|gaps[0]|..] == Filled(parts[1..], gaps[1..]);
      assert tail[1..] == Joined(parts[1..]);
    }
  }

  lemma {:induction false} FindFilling(parts: seq<string>, value: string) returns (gaps: seq<string>)
    requires parts != [] && forall i :: 0 <= i < |parts| ==> '*' !in parts[i]
    requires Denotes(Joined(parts), value)
    ensures |parts| == |gaps| + 1 && value == Filled(parts, gaps)
    decreases |parts|
  {
    if |parts| == 1 {
      gaps := [];
      LiteralHead(parts[0], "", value);
      assert parts[0] + "" == parts[0];
    } else {
      var tail := "*" + Joined(parts[1..]);
      assert Joined(parts) == parts[0] + tail;
      LiteralHead(parts[0], tail, value);
      var rest := value[|parts[0]|..];
      assert tail[1..] == Joined(parts[1..]);
      var k :| 0 <= k <= |rest| && Denotes(tail[1..], rest[k..]);
      var more := FindFilling(parts[1..], rest[k..]);
      gaps := [rest[..k]] + more;
      assert gaps[1..] == more;
      assert value == parts[0] + rest[..k] + rest[k..];
    }
  }
}
