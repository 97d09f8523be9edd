/** truncateErrorBody of botx/errors.go: cutting a response body for an error message without cutting a
    UTF-8 sequence (section 4 of RFC 3629). */
module ErrorBody {
  import opened Text

  newtype byte = b: int | 0 <= b < 256

  const MAX_ERROR_BODY_BYTES := 2048

  /** utf8.RuneStart: anything but a continuation byte. */
  predicate RuneStart(b: byte) {
    !(0x80 <= b <= 0xBF)
  }

  predicate InRange(b: byte, low: byte, high: byte) {
    low <= b <= high
  }

  predicate IsTail(b: byte) {
    0x80 <= b <= 0xBF
  }

  /** The length of the well-formed character at the start of `s`, or 0 when there is none: the four
      UTF8-n productions, with their restrictions on the second byte. */
  function CharLength(s: seq<byte>): (n: nat)
    ensures n <= 4 && n <= |s|
  {
    if s == [] then 0
    else if s[0] <= 0x7F then 1
    else if InRange(s[0], 0xC2, 0xDF) && |s| >= 2 && IsTail(s[1]) then 2
    else if InRange(s[0], 0xE0, 0xEF) && |s| >= 3 && IsTail(s[2])
            && (if s[0] == 0xE0 then InRange(s[1], 0xA0, 0xBF)
                else if s[0] == 0xED then InRange(s[1], 0x80, 0x9F) else IsTail(s[1])) then 3
    else if InRange(s[0], 0xF0, 0xF4) && |s| >= 4 && IsTail(s[2]) && IsTail(s[3])
            && (if s[0] == 0xF0 then InRange(s[1], 0x90, 0xBF)
                else if s[0] == 0xF4 then InRange(s[1], 0x80, 0x8F) else IsTail(s[1])) then 4
    else 0
  }

  predicate WellFormed(s: seq<byte>)
    decreases |s|
  {
    s == [] || (var n := CharLength(s); n > 0 && WellFormed(s[n..]))
  }

  /** A boundary: the end, or a byte a character can begin with. */
  predicate Boundary(s: seq<byte>, i: nat)
    requires i <= |s|
  {
    i == |s| || RuneStart(s[i])
  }

  /** Inside a character there is no boundary. */
  lemma TailsInside(s: seq<byte>, k: nat)
    requires 0 < k < CharLength(s)
    ensures !RuneStart(s[k])
  {}

  lemma CharLengthOfPrefix(s: seq<byte>, n: nat)
    requires CharLength(s) <= n <= |s|
    ensures CharLength(s) > 0 ==> CharLength(s[..n]) == CharLength(s)
  {}

  /** A well-formed text cut at a boundary leaves a well-formed text. */
  lemma {:induction false} PrefixWellFormed(s: seq<byte>, i: nat)
    requires WellFormed(s) && i <= |s| && Boundary(s, i)
    ensures WellFormed(s[..i])
    decreases |s|
  {
    if i > 0 {
      var n := CharLength(s);
      if i < n {
        TailsInside(s, i);
      } else {
        CharLengthOfPrefix(s, i);
        PrefixWellFormed(s[n..], i - n);
        assert s[..i][n..] == s[n..][..i - n];
      }
    }
  }

  /** A well-formed text has a boundary within any three steps back. */
  lemma {:induction false} BoundaryNear(s: seq<byte>, i: nat) returns (j: nat)
    requires WellFormed(s) && i < |s|
    ensures j <= i <= j + 3 && RuneStart(s[j])
    decreases |s|
  {
    var n := CharLength(s);
    if i < n {
      j := 0;
    } else {
      var k := BoundaryNear(s[n..], i - n);
      j := k + n;
    }
  }

  lemma {:induction false} ConcatWellFormed(a: seq<byte>, b: seq<byte>)
    requires WellFormed(a) && WellFormed(b)
    ensures WellFormed(a + b)
    decreases |a|
  {
    if a == [] {
      assert a + b == b;
    } else {
      var n := FirstChar(a);
      ConcatWellFormed(a[n..], b);
      OneMoreChar(a, b, n);
    }
  }

  lemma FirstChar(s: seq<byte>) returns (n: nat)
    requires s != [] && WellFormed(s)
    ensures 0 < n == CharLength(s) <= |s| && WellFormed(s[n..])
  {
    n := CharLength(s);
  }

  lemma OneMoreChar(a: seq<byte>, b: seq<byte>, n: nat)
    requires 0 < n == CharLength(a) && WellFormed(a[n..] + b)
    ensures WellFormed(a + b)
  {
    SameCharLength(a, b);
    assert (a + b)[n..] == a[n..] + b;
  }

  lemma SameCharLength(a: seq<byte>, b: seq<byte>)
    requires CharLength(a) > 0
    ensures CharLength(a + b) == CharLength(a)
  {}

  // ---- the note behind a cut body ----------------------------------------------------------------

  predicate IsAscii(s: string) {
    forall i :: 0 <= i < |s| ==> s[i] as int <= 0x7F
  }

  function Bytes(s: string): seq<byte>
    requires IsAscii(s)
  {
    seq(|s|, i requires 0 <= i < |s| => s[i] as int as byte)
  }

  lemma {:induction false} AsciiWellFormed(s: seq<byte>)
    requires forall i :: 0 <= i < |s| ==> s[i] <= 0x7F
    ensures WellFormed(s)
    decreases |s|
  {
    if s != [] { AsciiWellFormed(s[1..]); }
  }

  lemma {:induction false} DecimalIsAscii(n: nat)
    ensures IsAscii(Decimal(n))
  {
    if n >= 10 { DecimalIsAscii(n / 10); }
  }

  lemma AsciiConcat(a: string, b: string)
    requires IsAscii(a) && IsAscii(b)
    ensures IsAscii(a + b)
  {}

  function NoteText(cut: nat, of: nat): (s: string)
    ensures IsAscii(s)
  {
    DecimalIsAscii(cut);
    DecimalIsAscii(of);
    AsciiConcat(" (truncated to ", Decimal(cut));
    AsciiConcat(Decimal(of), " bytes)");
    AsciiConcat(" of ", Decimal(of) + " bytes)");
    AsciiConcat(" (truncated to " + Decimal(cut), " of " + (Decimal(of) + " bytes)"));
    " (truncated to " + Decimal(cut) + (" of " + (Decimal(of) + " bytes)"))
  }

  function Note(cut: nat, of: nat): seq<byte> {
    Bytes(NoteText(cut, of))
  }

  /** The last boundary that is not behind the limit. */
  ghost predicate IsErrorCut(data: seq<byte>, cut: nat)
    requires |data| > MAX_ERROR_BODY_BYTES
  {
    && cut <= MAX_ERROR_BODY_BYTES && (cut > 0 ==> RuneStart(data[cut]))
    && forall k :: cut < k <= MAX_ERROR_BODY_BYTES ==> !RuneStart(data[k])
  }

  method TruncateErrorBody(data: seq<byte>) returns (text: seq<byte>, truncated: bool)
    ensures truncated <==> |data| > MAX_ERROR_BODY_BYTES
    ensures !truncated ==> text == data
    ensures truncated ==> exists cut: nat :: IsErrorCut(data, cut) && text == data[..cut] + Note(cut, |data|)
  {
    if |data| <= MAX_ERROR_BODY_BYTES {
      return data, false;
    }
    var cut := MAX_ERROR_BODY_BYTES;
    while cut > 0 && !RuneStart(data[cut])
      invariant 0 <= cut <= MAX_ERROR_BODY_BYTES
      invariant forall k :: cut < k <= MAX_ERROR_BODY_BYTES ==> !RuneStart(data[k])
    {
      cut := cut - 1;
    }
    assert IsErrorCut(data, cut);
    return data[..cut] + Note(cut, |data|), true;
  }

  lemma ErrorCutIsUnique(data: seq<byte>, a: nat, b: nat)
    requires |data| > MAX_ERROR_BODY_BYTES && IsErrorCut(data, a) && IsErrorCut(data, b)
    ensures a == b
  {
    assert !(a < b) && !(b < a);
  }

  /** A cut body that was well-formed is well-formed with its note, and loses at most three bytes more than
      the limit takes. */
  lemma CutBodyIsWellFormed(data: seq<byte>, cut: nat)
    requires |data| > MAX_ERROR_BODY_BYTES && IsErrorCut(data, cut) && WellFormed(data)
    ensures MAX_ERROR_BODY_BYTES - 3 <= cut && WellFormed(data[..cut] + Note(cut, |data|))
  {
    var boundary := BoundaryNear(data, MAX_ERROR_BODY_BYTES);
    PrefixWellFormed(data, cut);
    AsciiWellFormed(Note(cut, |data|));
    ConcatWellFormed(data[..cut], Note(cut, |data|));
  }
}
