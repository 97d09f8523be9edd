/** First-occurrence deduplication, the way every chat list of the repository is built. */
module Lists {

  /** The elements of `s` without the repetitions, each at its first occurrence. */
  function Dedup<T(==,!new)>(s: seq<T>): (r: seq<T>)
    ensures forall x :: x in r <==> x in s
  {
    if s == [] then [] else
      var n := |s| - 1;
      assert s == s[..n] + [s[n]];
      Dedup(s[..n]) + if s[n] in s[..n] then [] else [s[n]]
  }

  ghost predicate Distinct<T>(s: seq<T>) {
    forall i, j :: 0 <= i < j < |s| ==> s[i] != s[j]
  }

  lemma {:induction false} DedupDistinct<T(!new)>(s: seq<T>)
    ensures Distinct(Dedup(s))
  {
    if s != [] {
      DedupDistinct(s[..|s| - 1]);
    }
  }

  /** A list without repetitions is left as it is. */
  lemma {:induction false} DedupOfDistinct<T(!new)>(s: seq<T>)
    requires Distinct(s)
    ensures Dedup(s) == s
  {
    if s != [] {
      DedupOfDistinct(s[..|s| - 1]);
      assert s == s[..|s| - 1] + [s[|s| - 1]];
    }
  }

  lemma LastBehind<T>(front: seq<T>, back: seq<T>)
    requires back != []
    ensures back == back[..|back| - 1] + [back[|back| - 1]]
    ensures front + back == front + back[..|back| - 1] + [back[|back| - 1]]
  {}

  lemma DedupAppend<T(!new)>(s: seq<T>, x: T)
    ensures Dedup(s + [x]) == Dedup(s) + if x in s then [] else [x]
  {
    assert (s + [x])[..|s|] == s;
  }

  /** Deduplication keeps the order in which elements first occur. */
  lemma {:induction false} DedupKeepsOrder<T(!new)>(s: seq<T>, i: nat, j: nat)
    requires i < j < |Dedup(s)|
    ensures exists p, q :: 0 <= p < q < |s| && s[p] == Dedup(s)[i] && s[q] == Dedup(s)[j]
                           && Dedup(s)[i] !in s[..p] && Dedup(s)[j] !in s[..q]
  {
    var n := |s| - 1;
    var d := Dedup(s[..n]);
    if j < |d| {
      DedupKeepsOrder(s[..n], i, j);
      var p, q :| 0 <= p < q < n && s[..n][p] == d[i] && s[..n][q] == d[j]
                  && d[i] !in s[..n][..p] && d[j] !in s[..n][..q];
      assert s[..n][..p] == s[..p] && s[..n][..q] == s[..q];
      assert s[p] == Dedup(s)[i] && s[q] == Dedup(s)[j];
    } else {
      assert d[i] in d;
      var p := FirstIndex(s[..n], d[i]);
      assert s[..n][..p] == s[..p];
      assert s[p] == Dedup(s)[i] && s[n] == Dedup(s)[j];
    }
  }

  lemma {:induction false} FirstIndex<T(!new)>(s: seq<T>, x: T) returns (i: nat)
    requires x in s
    ensures i < |s| && s[i] == x && x !in s[..i]
  {
    i := 0;
    while s[i] != x
      invariant i < |s| && x !in s[..i]
      decreases |s| - i
    {
      i := i + 1;
    }
  }
}
