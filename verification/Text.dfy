/** Searching in sequences: the meaning of Go's strings.Index and strings.Contains,
    which the text-handling code of the repository is built on. */
module Text {

  /** `pat` stands in `s` at position `i`. */
  predicate OccursAt<T(==)>(s: seq<T>, pat: seq<T>, i: int) {
    0 <= i && i + |pat| <= |s| && s[i..i + |pat|] == pat
  }

  ghost predicate Contains<T>(s: seq<T>, pat: seq<T>) {
    exists i :: OccursAt(s, pat, i)
  }

  /** The first occurrence of `pat` at or after `from`, or -1. */
  function IndexFrom<T(==)>(s: seq<T>, pat: seq<T>, from: nat): (r: int)
    requires from <= |s|
    ensures r == -1 || (from <= r && OccursAt(s, pat, r))
    ensures forall i :: from <= i && (r == -1 || i < r) ==> !OccursAt(s, pat, i)
    decreases |s| - from
  {
    if OccursAt(s, pat, from) then from
    else if from == |s| then -1
    else IndexFrom(s, pat, from + 1)
  }

  /** An occurrence that ends inside a prefix is an occurrence in any text with that prefix. */
  lemma OccursInPrefix<T>(s: seq<T>, t: seq<T>, n: nat, pat: seq<T>, i: int)
    requires n <= |s| && n <= |t| && s[..n] == t[..n]
    requires i + |pat| <= n
    ensures OccursAt(s, pat, i) <==> OccursAt(t, pat, i)
  {
    if 0 <= i {
      assert s[i..i + |pat|] == s[..n][i..i + |pat|];
      assert t[i..i + |pat|] == t[..n][i..i + |pat|];
    }
  }

  /** A part of an occurrence is an occurrence of the part. */
  lemma PartOccurs<T>(s: seq<T>, pat: seq<T>, i: int, a: nat, b: nat)
    requires OccursAt(s, pat, i) && a <= b <= |pat|
    ensures OccursAt(s, pat[a..b], i + a)
  {
    var found := s[i..i + |pat|];
    assert |found[a..b]| == |s[i + a..i + b]|;
    assert forall m :: 0 <= m < b - a ==> found[a..b][m] == s[i + a..i + b][m];
  }

  lemma PartOf<T>(s: seq<T>, pat: seq<T>, i: int, k: nat)
    requires OccursAt(s, pat, i) && k < |pat|
    ensures s[i + k] == pat[k] && pat[k] in s
  {
    assert s[i..i + |pat|][k] == s[i + k];
  }

  lemma CharOccurs(s: string, c: char, k: nat)
    requires k < |s|
    ensures OccursAt(s, [c], k) <==> s[k] == c
  {
    assert s[k..k + 1] == [s[k]];
  }

  /** Looking for a single character finds its first occurrence. */
  lemma IndexOfChar(s: string, c: char)
    ensures IndexFrom(s, [c], 0) < 0 <==> c !in s
    ensures var i := IndexFrom(s, [c], 0); i >= 0 ==> i < |s| && s[i] == c && c !in s[..i]
  {
    var i := IndexFrom(s, [c], 0);
    if i >= 0 {
      CharOccurs(s, c, i);
    }
    var before := if i >= 0 then i else |s|;
    forall k | 0 <= k < before
      ensures s[k] != c
    {
      CharOccurs(s, c, k);
    }
  }

  lemma SplitAtFirst(s: string, head: string, c: char, tail: string)
    requires s == head + [c] + tail && c !in head
    ensures IndexFrom(s, [c], 0) == |head| && s[..|head|] == head && s[|head| + 1..] == tail
  {
    IndexOfChar(s, c);
    assert s[|head|] == c;
    assert forall k :: 0 <= k < |head| ==> s[k] == head[k] && head[k] in head;
    assert OccursAt(s, [c], |head|);
  }

  /** The decimal digits of a number, as "%d" prints it. */
  function Decimal(n: nat): (s: string)
    ensures s != ""
  {
    if n < 10 then [Digit(n)] else Decimal(n / 10) + [Digit(n % 10)]
  }

  function Digit(d: nat): char
    requires d < 10
  {
    '0' + d as char
  }

  lemma {:induction false} DecimalInjective(m: nat, n: nat)
    requires Decimal(m) == Decimal(n)
    ensures m == n
  {
    var s := Decimal(m);
    if m >= 10 && n >= 10 {
      assert s[..|s| - 1] == Decimal(m / 10) == Decimal(n / 10);
      assert s[|s| - 1] == Digit(m % 10) == Digit(n % 10);
      DecimalInjective(m / 10, n / 10);
    } else {
      OneDigit(m);
      OneDigit(n);
    }
  }

  lemma OneDigit(n: nat)
    ensures |Decimal(n)| == 1 <==> n < 10
  {}
}
