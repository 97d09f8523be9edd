/** handleMessage of internal/cmd/worker.go: delivering one queued message with bounded retries. */
module Worker {
  import opened Wrappers

  const SECOND := 1_000_000_000
  const MAX_BACKOFF := 60 * SECOND
  const INT64_MAX := 0x7FFF_FFFF_FFFF_FFFF
  const INT64_MIN := -0x8000_0000_0000_0000

  datatype SendOutcome = Sent(syncId: string) | Unauthorized | OtherError(error: string)

  datatype Status = StatusSent(syncId: string) | StatusFailed | StatusDryRun

  /** What one delivery does to the outside world, in order. A wait may be cut short because the worker
      stops; a send goes out under the token the client holds. */
  datatype Step =
    | Waited(duration: int, cut: bool)
    | Authenticated(token: Option<string>)
    | SendTried(under: string, outcome: SendOutcome)
    | Published(status: Status)

  /** The message is settled, refused (the driver may requeue it), or given up because the worker stops. */
  datatype Result = Acked | Nacked | Cancelled

  /** The effective settings of a worker, and how a message meets it. Durations are nanoseconds; `token`
      is what the client holds when the message arrives, perhaps obtained for an earlier one. */
  datatype Delivery = Delivery(botFound: bool, dryRun: bool, replyTo: bool, staticToken: bool,
                               token: string, retryCount: nat, retryBackoff: int)

  /** The outside world: the n-th authentication, the n-th send, whether the k-th wait is interrupted, the
      floating-point product of a duration and 5^n (a whole number; any number beyond int64 when it is
      infinite or not a number), and what converting such a number beyond int64 to a duration gives, which
      Go leaves to the platform. */
  datatype World = World(authenticate: nat -> Option<string>, send: nat -> SendOutcome,
                         interrupted: nat -> bool, product: (int, nat) -> int, convert: int -> int)

  predicate Fits(x: int) {
    INT64_MIN <= x <= INT64_MAX
  }

  function Pow5(n: nat): nat {
    if n == 0 then 1 else 5 * Pow5(n - 1)
  }

  /** The wait before the k-th retry. */
  function Backoff(d: Delivery, w: World, k: nat): int
    requires k >= 1
  {
    var product := w.product(d.retryBackoff, k - 1);
    var duration := if Fits(product) then product else w.convert(product);
    if duration > MAX_BACKOFF then MAX_BACKOFF else duration
  }

  // ---- reading a trace -----------------------------------------------------------------------------

  function Sends(trace: seq<Step>): nat {
    if trace == [] then 0
    else Sends(trace[..|trace| - 1]) + if trace[|trace| - 1].SendTried? then 1 else 0
  }

  function Waits(trace: seq<Step>): seq<int> {
    if trace == [] then []
    else Waits(trace[..|trace| - 1])
         + if trace[|trace| - 1].Waited? then [trace[|trace| - 1].duration] else []
  }

  /** The token the client holds: the last one obtained. */
  function Held(d: Delivery, trace: seq<Step>): string {
    if trace == [] then d.token
    else
      var last := trace[|trace| - 1];
      if last.Authenticated? && last.token.Some? then last.token.value else Held(d, trace[..|trace| - 1])
  }

  predicate IsSuccess(s: Step) {
    s.SendTried? && s.outcome.Sent?
  }

  predicate Refused(s: Step) {
    s.SendTried? && s.outcome.Unauthorized?
  }

  /** The last step of the trace is the answer to a new token asked for because of a 401. */
  predicate Refreshing(trace: seq<Step>) {
    |trace| >= 2 && trace[|trace| - 1].Authenticated? && Refused(trace[|trace| - 2])
  }

  /** The last step of the trace is the second send of its round. */
  predicate Resent(trace: seq<Step>) {
    trace != [] && trace[|trace| - 1].SendTried? && Refreshing(trace[..|trace| - 1])
  }

  /** A round begins: at the start, and after every wait that ran to its end. */
  predicate AtRoundStart(trace: seq<Step>) {
    trace == [] || (trace[|trace| - 1].Waited? && !trace[|trace| - 1].cut)
  }

  /** A failure that is not tried again: a rejected static token, a second 401 in a row, a refresh that
      failed. */
  predicate Permanent(d: Delivery, trace: seq<Step>) {
    trace != []
    && var last := trace[|trace| - 1];
       || (Refused(last) && (d.staticToken || Resent(trace)))
       || (last == Authenticated(None) && Refreshing(trace))
  }

  /** Any other failure: no token at the start of a round, or a send that failed without a 401. */
  predicate Transient(trace: seq<Step>) {
    trace != []
    && var last := trace[|trace| - 1];
       || (last == Authenticated(None) && !Refreshing(trace))
       || (last.SendTried? && last.outcome.OtherError?)
  }

  /** Delivery has come to an end without success. */
  predicate Failed(d: Delivery, trace: seq<Step>) {
    Permanent(d, trace) || (Transient(trace) && |Waits(trace)| == d.retryCount)
  }

  /** The rules of the worker: which step may come next, from the history alone. */
  predicate MayFollow(d: Delivery, w: World, trace: seq<Step>, s: Step) {
    match s
    case Waited(duration, _) =>
      Transient(trace) && |Waits(trace)| < d.retryCount && duration == Backoff(d, w, |Waits(trace)| + 1)
    case Authenticated(_) =>
      || (d.botFound && !d.dryRun && AtRoundStart(trace) && Held(d, trace) == "")
      || (trace != [] && Refused(trace[|trace| - 1]) && !d.staticToken && !Resent(trace))
    case SendTried(under, _) =>
      d.botFound && !d.dryRun && under == Held(d, trace)
      && if AtRoundStart(trace) then Held(d, trace) != ""
         else trace[|trace| - 1].Authenticated? && trace[|trace| - 1].token.Some?
    case Published(status) =>
      d.replyTo
      && match status {
           case StatusSent(id) =>
             trace != [] && IsSuccess(trace[|trace| - 1]) && trace[|trace| - 1].outcome.syncId == id
           case StatusFailed => if trace == [] then !d.botFound else Failed(d, trace)
           case StatusDryRun => trace == [] && d.botFound && d.dryRun
         }
  }

  ghost predicate Orderly(d: Delivery, w: World, trace: seq<Step>) {
    forall i :: 0 <= i < |trace| ==> MayFollow(d, w, trace[..i], trace[i])
  }

  lemma Extend(d: Delivery, w: World, trace: seq<Step>, s: Step)
    requires Orderly(d, w, trace) && MayFollow(d, w, trace, s)
    ensures Orderly(d, w, trace + [s])
  {
    var all := trace + [s];
    forall i | 0 <= i < |all|
      ensures MayFollow(d, w, all[..i], all[i])
    {
      if i < |trace| {
        assert all[..i] == trace[..i];
      } else {
        assert all[..i] == trace;
      }
    }
  }

  lemma Shorten(d: Delivery, w: World, trace: seq<Step>, n: nat)
    requires Orderly(d, w, trace) && n <= |trace|
    ensures Orderly(d, w, trace[..n])
  {
    forall i | 0 <= i < n
      ensures MayFollow(d, w, trace[..n][..i], trace[..n][i])
    {
      assert trace[..n][..i] == trace[..i];
    }
  }

  lemma Appended(d: Delivery, trace: seq<Step>, s: Step)
    ensures (trace + [s])[..|trace|] == trace
    ensures Waits(trace + [s]) == Waits(trace) + if s.Waited? then [s.duration] else []
    ensures Held(d, trace + [s]) == if s.Authenticated? && s.token.Some? then s.token.value else Held(d, trace)
    ensures Refreshing(trace + [s]) <==> s.Authenticated? && trace != [] && Refused(trace[|trace| - 1])
    ensures Resent(trace + [s]) <==> s.SendTried? && Refreshing(trace)
  {
    assert (trace + [s])[..|trace|] == trace;
  }

  // ---- the worker ----------------------------------------------------------------------------------

  datatype Attempt = Delivered(syncId: string) | GaveUp | TryAgain

  /** How a round stands after it ended with `r`. */
  predicate Stands(d: Delivery, trace: seq<Step>, r: Attempt) {
    match r
    case Delivered(syncId) =>
      trace != [] && IsSuccess(trace[|trace| - 1]) && trace[|trace| - 1].outcome.syncId == syncId
    case GaveUp => Permanent(d, trace)
    case TryAgain => Transient(trace)
  }

  /** A send settles the round, or shows a 401 that calls for a new token. */
  lemma AfterSend(d: Delivery, before: seq<Step>, s: Step)
    requires s.SendTried?
    ensures var trace := before + [s];
            && Waits(trace) == Waits(before)
            && match s.outcome {
                 case Sent(syncId) => Stands(d, trace, Delivered(syncId))
                 case OtherError(_) => Stands(d, trace, TryAgain)
                 case Unauthorized => if d.staticToken || Refreshing(before) then Stands(d, trace, GaveUp)
                                      else trace != [] && Refused(trace[|trace| - 1]) && !Resent(trace)
               }
  {
    Appended(d, before, s);
  }

  /** Without a token the round is over. */
  lemma NoToken(d: Delivery, before: seq<Step>)
    ensures var trace := before + [Authenticated(None)];
            Stands(d, trace, if before != [] && Refused(before[|before| - 1]) then GaveUp else TryAgain)
  {
    Appended(d, before, Authenticated(None));
  }

  /** What the result says about the trace, apart from the published step. */
  predicate Ended(d: Delivery, trace: seq<Step>, r: Result) {
    match r
    case Acked => if trace == [] then !d.botFound || d.dryRun else IsSuccess(trace[|trace| - 1])
    case Nacked => Failed(d, trace)
    case Cancelled => trace != [] && trace[|trace| - 1].Waited? && trace[|trace| - 1].cut
  }

  class BotClient {
    const d: Delivery
    const w: World
    var token: string
    var trace: seq<Step>
    var authentications: nat
    var sends: nat

    ghost predicate Valid()
      reads this
    {
      Orderly(d, w, trace) && token == Held(d, trace)
    }

    constructor (d: Delivery, w: World)
      ensures this.d == d && this.w == w && trace == [] && Valid()
    {
      this.d, this.w, this.token := d, w, d.token;
      trace, authentications, sends := [], 0, 0;
    }

    method Authenticate() returns (tok: Option<string>)
      requires Valid() && MayFollow(d, w, trace, Authenticated(w.authenticate(authentications)))
      modifies this`trace, this`authentications
      ensures tok == old(w.authenticate(authentications)) && trace == old(trace) + [Authenticated(tok)]
      ensures Orderly(d, w, trace)
    {
      tok := w.authenticate(authentications);
      authentications := authentications + 1;
      Extend(d, w, trace, Authenticated(tok));
      trace := trace + [Authenticated(tok)];
    }

    method Send() returns (outcome: SendOutcome)
      requires Valid() && forall o :: MayFollow(d, w, trace, SendTried(token, o))
      modifies this`trace, this`sends
      ensures outcome == old(w.send(sends)) && trace == old(trace) + [SendTried(token, outcome)]
      ensures Valid()
    {
      outcome := w.send(sends);
      sends := sends + 1;
      Extend(d, w, trace, SendTried(token, outcome));
      Appended(d, trace, SendTried(token, outcome));
      trace := trace + [SendTried(token, outcome)];
    }

    /** One round of the loop behind the wait. */
    method TryOnce() returns (r: Attempt)
      requires Valid() && AtRoundStart(trace) && d.botFound && !d.dryRun
      modifies this
      ensures Valid() && Stands(d, trace, r) && Waits(trace) == old(Waits(trace))
    {
      if token == "" {
        var tok := Authenticate();
        Appended(d, old(trace), Authenticated(tok));
        if tok.None? {
          NoToken(d, old(trace));
          return TryAgain;
        }
        token := tok.value;
      }
      r := FirstSend();
    }

    /** The first send of a round, and a second one after a 401. */
    method FirstSend() returns (r: Attempt)
      requires Valid() && d.botFound && !d.dryRun && !Refreshing(trace)
      requires if AtRoundStart(trace) then token != ""
               else trace[|trace| - 1].Authenticated? && trace[|trace| - 1].token.Some?
      modifies this
      ensures Valid() && Stands(d, trace, r) && Waits(trace) == old(Waits(trace))
    {
      ghost var before := trace;
      var outcome := Send();
      AfterSend(d, before, SendTried(token, outcome));
      match outcome {
        case Sent(syncId) => return Delivered(syncId);
        case OtherError(_) => return TryAgain;
        case Unauthorized =>
          if d.staticToken {
            return GaveUp;
          }
          r := Resend();
      }
    }

    /** After a 401: a new token and the same message once more. */
    method Resend() returns (r: Attempt)
      requires Valid() && d.botFound && !d.dryRun && !d.staticToken
      requires trace != [] && Refused(trace[|trace| - 1]) && !Resent(trace)
      modifies this
      ensures Valid() && Stands(d, trace, r) && Waits(trace) == old(Waits(trace))
    {
      var newToken := Authenticate();
      Appended(d, old(trace), Authenticated(newToken));
      if newToken.None? {
        NoToken(d, old(trace));
        return GaveUp;
      }
      token := newToken.value;
      ghost var before := trace;
      var outcome := Send();
      AfterSend(d, before, SendTried(token, outcome));
      match outcome {
        case Sent(syncId) => return Delivered(syncId);
        case Unauthorized => return GaveUp;
        case OtherError(_) => return TryAgain;
      }
    }

    method PublishResult(status: Status)
      requires Valid() && (d.replyTo ==> MayFollow(d, w, trace, Published(status)))
      modifies this`trace
      ensures Valid() && trace == old(trace) + if d.replyTo then [Published(status)] else []
    {
      if d.replyTo {
        Extend(d, w, trace, Published(status));
        Appended(d, trace, Published(status));
        trace := trace + [Published(status)];
      } else {
        assert trace + [] == trace;
      }
    }

    /** The wait before a further attempt. */
    method Wait(attempt: nat) returns (cancelled: bool)
      requires Valid() && Transient(trace) && attempt == |Waits(trace)| + 1 <= d.retryCount
      modifies this`trace
      ensures Valid() && |Waits(trace)| == attempt
      ensures if cancelled then Ended(d, trace, Cancelled) else AtRoundStart(trace)
    {
      var backoff := Backoff(d, w, attempt);
      cancelled := w.interrupted(attempt);
      Extend(d, w, trace, Waited(backoff, cancelled));
      Appended(d, trace, Waited(backoff, cancelled));
      trace := trace + [Waited(backoff, cancelled)];
    }

    /** The retry loop: how it ended, before anything is published; nothing if the worker is stopping. */
    method Deliver() returns (r: Option<Attempt>)
      requires Valid() && trace == [] && d.botFound && !d.dryRun
      modifies this
      ensures Valid()
      ensures r.None? ==> Ended(d, trace, Cancelled)
      ensures r.Some? ==> Stands(d, trace, r.value) && (r.value.TryAgain? ==> |Waits(trace)| == d.retryCount)
    {
      var attempt := 0;
      var outcome := TryAgain;
      while attempt <= d.retryCount
        invariant 0 <= attempt <= d.retryCount + 1
        invariant Valid() && outcome == TryAgain
        invariant if attempt == 0 then trace == [] else Transient(trace) && |Waits(trace)| == attempt - 1
      {
        if attempt > 0 {
          var cancelled := Wait(attempt);
          if cancelled {
            return None;
          }
        }
        outcome := TryOnce();
        if !outcome.TryAgain? {
          return Some(outcome);
        }
        attempt := attempt + 1;
      }
      return Some(outcome);
    }

    /** The end of a delivery that was not interrupted. */
    method Settle(status: Status, ghost r: Result)
      requires Valid() && Ended(d, trace, r) && r != Cancelled
      requires d.replyTo ==> MayFollow(d, w, trace, Published(status))
      requires trace != [] ==> !trace[|trace| - 1].Published?
      modifies this`trace
      ensures Settled(d, w, trace, r)
    {
      PublishResult(status);
      assert Body(trace) == old(trace);
    }

    /** The whole of handleMessage. */
    method HandleMessage() returns (r: Result)
      requires Valid() && trace == []
      modifies this
      ensures Settled(d, w, trace, r)
    {
      if !d.botFound {
        Settle(StatusFailed, Acked);
        return Acked;
      }
      if d.dryRun {
        Settle(StatusDryRun, Acked);
        return Acked;
      }
      var outcome := Deliver();
      match outcome {
        case None =>
          return Cancelled;
        case Some(Delivered(syncId)) =>
          Settle(StatusSent(syncId), Acked);
          return Acked;
        case Some(_) =>
          Settle(StatusFailed, Nacked);
          return Nacked;
      }
    }
  }

  /** The trace up to the publication, if that is its last step. */
  function Body(trace: seq<Step>): seq<Step> {
    if trace != [] && trace[|trace| - 1].Published? then trace[..|trace| - 1] else trace
  }

  /** A finished delivery: every step by the rules, ended the way the result says, and the result of an
      uninterrupted delivery published when a reply is wanted. */
  ghost predicate Settled(d: Delivery, w: World, trace: seq<Step>, r: Result) {
    && Orderly(d, w, trace)
    && Ended(d, Body(trace), r)
    && (d.replyTo && r != Cancelled <==> trace != [] && trace[|trace| - 1].Published?)
  }

  // ---- what the rules imply ------------------------------------------------------------------------

  /** How many sends the current round may have behind it. */
  function SentThisRound(trace: seq<Step>): nat {
    if trace == [] then 0
    else
      match trace[|trace| - 1]
      case Waited(_, _) => 0
      case Authenticated(_) => if Refreshing(trace) then 1 else 0
      case SendTried(_, _) => if Resent(trace) then 2 else 1
      case Published(_) => 2
  }

  lemma {:induction false} SendsByRound(d: Delivery, w: World, trace: seq<Step>)
    requires Orderly(d, w, trace)
    ensures Sends(trace) <= 2 * |Waits(trace)| + SentThisRound(trace)
    ensures |Waits(trace)| <= d.retryCount
  {
    if trace != [] {
      var before := trace[..|trace| - 1];
      assert MayFollow(d, w, before, trace[|trace| - 1]);
      Shorten(d, w, trace, |trace| - 1);
      SendsByRound(d, w, before);
    }
  }

  /** A message is sent at most twice for each of its retryCount + 1 attempts. */
  lemma SendsAreBounded(d: Delivery, w: World, trace: seq<Step>)
    requires Orderly(d, w, trace)
    ensures Sends(trace) <= 2 * (d.retryCount + 1)
  {
    SendsByRound(d, w, trace);
  }

  /** Nothing follows a successful send but the publication of its sync id. */
  lemma SuccessEndsDelivery(d: Delivery, w: World, trace: seq<Step>, i: nat)
    requires Orderly(d, w, trace) && i < |trace| && IsSuccess(trace[i])
    ensures i == |trace| - 1 || (i == |trace| - 2 && trace[i + 1] == Published(StatusSent(trace[i].outcome.syncId)))
  {
    if i + 1 < |trace| {
      assert MayFollow(d, w, trace[..i + 1], trace[i + 1]);
      PublishedLast(d, w, trace, i + 1);
    }
  }

  /** A result is published at most once and nothing follows it. */
  lemma PublishedLast(d: Delivery, w: World, trace: seq<Step>, i: nat)
    requires Orderly(d, w, trace) && i < |trace| && trace[i].Published?
    ensures i == |trace| - 1
  {
    if i + 1 < |trace| {
      NothingFollowsPublication(d, w, trace[..i + 1], trace[i + 1]);
    }
  }

  lemma NothingFollowsPublication(d: Delivery, w: World, before: seq<Step>, s: Step)
    requires before != [] && before[|before| - 1].Published?
    ensures !MayFollow(d, w, before, s)
  {}

  /** "sent" is published only right after the successful send whose sync id it carries. */
  lemma SentMeansSent(d: Delivery, w: World, trace: seq<Step>, i: nat, id: string)
    requires Orderly(d, w, trace) && i < |trace| && trace[i] == Published(StatusSent(id))
    ensures i > 0 && IsSuccess(trace[i - 1]) && trace[i - 1].outcome.syncId == id
  {
    assert MayFollow(d, w, trace[..i], trace[i]);
  }

  /** The k-th wait is the k-th backoff. */
  lemma {:induction false} WaitsAreBackoffs(d: Delivery, w: World, trace: seq<Step>)
    requires Orderly(d, w, trace)
    ensures forall k :: 0 <= k < |Waits(trace)| ==> Waits(trace)[k] == Backoff(d, w, k + 1)
  {
    if trace != [] {
      var before := trace[..|trace| - 1];
      assert MayFollow(d, w, before, trace[|trace| - 1]);
      Shorten(d, w, trace, |trace| - 1);
      WaitsAreBackoffs(d, w, before);
    }
  }

  /** The result tells the driver the truth: a known bot's message outside dry-run is acknowledged exactly
      when a send succeeded, and refused exactly when delivery failed without being interrupted. */
  lemma ResultIsFaithful(d: Delivery, w: World, trace: seq<Step>, r: Result)
    requires Settled(d, w, trace, r) && d.botFound && !d.dryRun
    ensures r == Acked <==> exists i :: 0 <= i < |trace| && IsSuccess(trace[i])
    ensures r == Nacked <==> !Interrupted(trace) && forall i :: 0 <= i < |trace| ==> !IsSuccess(trace[i])
    ensures d.replyTo && r != Cancelled ==> trace != [] && trace[|trace| - 1].Published?
  {
    var before := Body(trace);
    forall i | 0 <= i < |trace| && IsSuccess(trace[i])
      ensures i == |before| - 1
    {
      SuccessEndsDelivery(d, w, trace, i);
    }
    if r == Acked {
      assert IsSuccess(trace[|before| - 1]);
    }
  }

  // ---- refused tokens --------------------------------------------------------------------------------

  /** A 401 that is not itself the answer to a send under a token just renewed because of a 401. */
  predicate FirstRefusal(trace: seq<Step>, i: nat) {
    i < |trace| && Refused(trace[i]) && !(i >= 2 && trace[i - 1].Authenticated? && Refused(trace[i - 2]))
  }

  /** A bot without a static token never ends at a first 401: a new token is asked for, and when there is one the
      message is sent again under it. */
  lemma FirstRefusalIsAnswered(d: Delivery, w: World, trace: seq<Step>, r: Result, i: nat)
    requires Settled(d, w, trace, r) && !d.staticToken && FirstRefusal(trace, i)
    ensures i + 1 < |trace| && trace[i + 1].Authenticated?
    ensures forall t :: trace[i + 1].token == Some(t) ==>
              i + 2 < |trace| && trace[i + 2].SendTried? && trace[i + 2].under == t
  {
    PrefixAt(trace, i);
    RefusalIsAnswered(d, w, trace, r, trace[..i], trace[i]);
    if trace[i + 1].token.Some? {
      PrefixAt(trace, i + 1);
      RenewedIsSent(d, w, trace, r, trace[..i + 1], trace[i + 1]);
    }
  }

  lemma PrefixAt(trace: seq<Step>, i: nat)
    requires i < |trace|
    ensures trace[..i] + [trace[i]] <= trace
    ensures FirstRefusal(trace, i) ==> !Refreshing(trace[..i])
  {}

  /** A delivery that has not ended goes on by the rules. */
  lemma GoesOn(d: Delivery, w: World, trace: seq<Step>, r: Result, n: nat)
    requires Settled(d, w, trace, r) && 0 < n <= |trace| && !trace[n - 1].Published? && !Ended(d, trace[..n], r)
    ensures n < |trace| && MayFollow(d, w, trace[..n], trace[n])
  {
    assert trace[..|trace|] == trace;
  }

  lemma RefusalIsAnswered(d: Delivery, w: World, trace: seq<Step>, r: Result, before: seq<Step>, s: Step)
    requires Settled(d, w, trace, r) && before + [s] <= trace
    requires !d.staticToken && Refused(s) && !Refreshing(before)
    ensures |trace| > |before| + 1 && trace[|before| + 1].Authenticated?
  {
    NotOverAtRefusal(d, before, s, r);
    assert trace[..|before| + 1] == before + [s];
    GoesOn(d, w, trace, r, |before| + 1);
    OnlyARenewalFollows(d, w, before, s, trace[|before| + 1]);
  }

  lemma NotOverAtRefusal(d: Delivery, before: seq<Step>, s: Step, r: Result)
    requires !d.staticToken && Refused(s) && !Refreshing(before)
    ensures !Ended(d, before + [s], r)
  {
    Appended(d, before, s);
  }

  lemma OnlyARenewalFollows(d: Delivery, w: World, before: seq<Step>, s: Step, next: Step)
    requires !d.staticToken && Refused(s) && !Refreshing(before) && MayFollow(d, w, before + [s], next)
    ensures next.Authenticated?
  {
    NotOverAtRefusal(d, before, s, Nacked);
  }

  /** A token obtained is used at once. */
  lemma RenewedIsSent(d: Delivery, w: World, trace: seq<Step>, r: Result, before: seq<Step>, s: Step)
    requires Settled(d, w, trace, r) && before + [s] <= trace && HasToken(s)
    ensures |trace| > |before| + 1 && trace[|before| + 1].SendTried? && trace[|before| + 1].under == s.token.value
  {
    NotOverAtToken(d, before, s, r);
    assert trace[..|before| + 1] == before + [s];
    GoesOn(d, w, trace, r, |before| + 1);
    OnlyASendFollows(d, w, before, s, trace[|before| + 1]);
  }

  lemma NotOverAtToken(d: Delivery, before: seq<Step>, s: Step, r: Result)
    requires HasToken(s)
    ensures !Ended(d, before + [s], r)
  {
    Appended(d, before, s);
  }

  lemma OnlyASendFollows(d: Delivery, w: World, before: seq<Step>, s: Step, next: Step)
    requires HasToken(s) && MayFollow(d, w, before + [s], next)
    ensures next.SendTried? && next.under == s.token.value
  {
    Appended(d, before, s);
    NotOverAtToken(d, before, s, Nacked);
  }

  /** A refused static token ends the delivery: nothing but the publication follows. */
  lemma StaticRefusalEnds(d: Delivery, w: World, trace: seq<Step>, i: nat)
    requires Orderly(d, w, trace) && d.staticToken && i < |trace| && Refused(trace[i])
    ensures i == |trace| - 1 || (i == |trace| - 2 && trace[i + 1] == Published(StatusFailed))
  {
    if i + 1 < |trace| {
      var now := trace[..i + 1];
      assert now[i] == trace[i] && MayFollow(d, w, now, trace[i + 1]);
      PublishedLast(d, w, trace, i + 1);
    }
  }

  predicate HasToken(s: Step) {
    s.Authenticated? && s.token.Some?
  }

  /** Every send goes out under the token obtained last, or under the one the client came with. */
  lemma {:induction false} SentUnderLastToken(d: Delivery, w: World, trace: seq<Step>, i: nat, j: nat)
    requires Orderly(d, w, trace) && j <= i < |trace| && trace[i].SendTried?
    requires forall k :: j <= k < i ==> !HasToken(trace[k])
    ensures j > 0 && HasToken(trace[j - 1]) ==> trace[i].under == trace[j - 1].token.value
    ensures j == 0 ==> trace[i].under == d.token
  {
    assert MayFollow(d, w, trace[..i], trace[i]);
    HeldSince(d, trace, i, j);
  }

  lemma {:induction false} HeldSince(d: Delivery, trace: seq<Step>, i: nat, j: nat)
    requires j <= i <= |trace| && forall k :: j <= k < i ==> !HasToken(trace[k])
    ensures j > 0 && HasToken(trace[j - 1]) ==> Held(d, trace[..i]) == trace[j - 1].token.value
    ensures j == 0 ==> Held(d, trace[..i]) == d.token
    decreases i
  {
    if i > j {
      HeldSince(d, trace, i - 1, j);
      assert trace[..i][..i - 1] == trace[..i - 1] && trace[..i][i - 1] == trace[i - 1];
    } else if j > 0 {
      assert trace[..i][j - 1] == trace[j - 1];
    }
  }

  /** How an uninterrupted delivery can fail: at a 401 for a token that is static or just renewed, at a renewal that
      gives none, or, the retries used up, at a missing token or any other error. */
  predicate FailsAt(d: Delivery, trace: seq<Step>, n: nat)
    requires n < |trace|
  {
    match trace[n]
    case SendTried(_, Unauthorized) => d.staticToken || !FirstRefusal(trace, n)
    case SendTried(_, OtherError(_)) => |Waits(trace)| == d.retryCount
    case Authenticated(None) => (n >= 1 && Refused(trace[n - 1])) || |Waits(trace)| == d.retryCount
    case _ => false
  }

  lemma FailureHasItsReason(d: Delivery, w: World, trace: seq<Step>)
    requires Settled(d, w, trace, Nacked)
    ensures Body(trace) != [] && FailsAt(d, Body(trace), |Body(trace)| - 1)
  {
    var body := Body(trace);
    var n := |body| - 1;
    assert n >= 1 ==> body[..n][n - 1] == body[n - 1];
    assert n >= 2 ==> body[..n][n - 2] == body[n - 2];
  }

  /** No token at the start of a round, or a send that failed without a 401. */
  predicate FailsOtherwise(before: seq<Step>, s: Step) {
    || (s.SendTried? && s.outcome.OtherError?)
    || (s == Authenticated(None) && (before == [] || !Refused(before[|before| - 1])))
  }

  /** Any such failure is retried after a wait, as long as there are retries left. */
  lemma OtherFailureIsRetried(d: Delivery, w: World, trace: seq<Step>, r: Result, before: seq<Step>, s: Step)
    requires Settled(d, w, trace, r) && before + [s] <= trace
    requires FailsOtherwise(before, s) && |Waits(before)| < d.retryCount
    ensures |trace| > |before| + 1 && trace[|before| + 1].Waited?
    ensures trace[|before| + 1].duration == Backoff(d, w, |Waits(before)| + 1)
  {
    NotYetFailed(d, before, s, r);
    assert trace[..|before| + 1] == before + [s];
    GoesOn(d, w, trace, r, |before| + 1);
    OnlyAWaitFollows(d, w, before, s, trace[|before| + 1]);
  }

  lemma NotYetFailed(d: Delivery, before: seq<Step>, s: Step, r: Result)
    requires FailsOtherwise(before, s) && |Waits(before)| < d.retryCount
    ensures !Ended(d, before + [s], r)
  {
    Appended(d, before, s);
  }

  lemma OnlyAWaitFollows(d: Delivery, w: World, before: seq<Step>, s: Step, next: Step)
    requires FailsOtherwise(before, s) && |Waits(before)| < d.retryCount && MayFollow(d, w, before + [s], next)
    ensures next.Waited? && next.duration == Backoff(d, w, |Waits(before)| + 1)
  {
    Appended(d, before, s);
    NotYetFailed(d, before, s, Nacked);
  }

  /** The worker was stopped while it waited. */
  predicate Interrupted(trace: seq<Step>) {
    trace != [] && trace[|trace| - 1].Waited? && trace[|trace| - 1].cut
  }

  /** Without a bot, or in dry-run, nothing is sent or waited for. */
  lemma NothingWithoutBot(d: Delivery, w: World, trace: seq<Step>)
    requires Orderly(d, w, trace) && (!d.botFound || d.dryRun)
    ensures forall i :: 0 <= i < |trace| ==> i == 0 && trace[i].Published?
  {
    if trace != [] {
      assert MayFollow(d, w, trace[..0], trace[0]);
      PublishedLast(d, w, trace, 0);
    }
  }

  /** Such a message is acknowledged, and all that is published is why it was not delivered. */
  lemma NotDelivered(d: Delivery, w: World, trace: seq<Step>, r: Result)
    requires Settled(d, w, trace, r) && (!d.botFound || d.dryRun)
    ensures r == Acked
    ensures trace == if !d.replyTo then [] else [Published(if d.botFound then StatusDryRun else StatusFailed)]
  {
    NothingWithoutBot(d, w, trace);
    if trace != [] { assert MayFollow(d, w, trace[..0], trace[0]); }
  }

  /** What is published of a delivery that was tried: its success with the sync id, or that it failed. */
  lemma PublishedTellsResult(d: Delivery, w: World, trace: seq<Step>, r: Result)
    requires Settled(d, w, trace, r) && d.botFound && !d.dryRun && d.replyTo && r != Cancelled
    ensures |trace| >= 2
    ensures var last, before := trace[|trace| - 1], trace[|trace| - 2];
            if r == Acked then IsSuccess(before) && last == Published(StatusSent(before.outcome.syncId))
            else last == Published(StatusFailed)
  {
    var n := |trace| - 1;
    assert MayFollow(d, w, trace[..n], trace[n]);
  }

  // ---- the waits -----------------------------------------------------------------------------------

  function Total(waits: seq<int>): int {
    if waits == [] then 0
    else Total(waits[..|waits| - 1]) + if waits[|waits| - 1] < 0 then 0 else waits[|waits| - 1]
  }

  /** Whatever the backoff, the waits of one delivery add up to at most a minute per retry. */
  lemma TotalWaitIsBounded(d: Delivery, w: World, trace: seq<Step>)
    requires Orderly(d, w, trace)
    ensures Total(Waits(trace)) <= MAX_BACKOFF * d.retryCount
  {
    var waits := Waits(trace);
    assert |waits| <= d.retryCount by { SendsByRound(d, w, trace); }
    assert forall k :: 0 <= k < |waits| ==> waits[k] <= MAX_BACKOFF by { WaitsAreBackoffs(d, w, trace); }
    TotalOfBounded(waits);
    ProductGrows(|waits|, d.retryCount);
  }

  lemma ProductGrows(m: nat, n: nat)
    requires m <= n
    ensures MAX_BACKOFF * m <= MAX_BACKOFF * n
  {}

  lemma {:induction false} TotalOfBounded(waits: seq<int>)
    requires forall k :: 0 <= k < |waits| ==> waits[k] <= MAX_BACKOFF
    ensures Total(waits) <= MAX_BACKOFF * |waits|
  {
    if waits != [] {
      TotalOfBounded(waits[..|waits| - 1]);
    }
  }

  /** Whole numbers up to this one have exact doubles. */
  const EXACT := 0x20_0000_0000_0000

  function Abs(x: int): nat {
    if x < 0 then -x else x
  }

  /** What is used of double precision: small products are exact, others are off by less than a thousandth
      as long as they are finite, and beyond that they are out of range (or not a number, for zero). */
  ghost predicate RoundsProduct(w: World, b: int, n: nat) {
    var exact, product := b * Pow5(n), w.product(b, n);
    if n <= 400 then
      if Abs(exact) <= EXACT then product == exact else 1000 * Abs(product - exact) <= Abs(exact)
    else if b == 0 then
      product == 0 || !Fits(product)
    else if b > 0 then product > INT64_MAX else product < INT64_MIN
  }

  ghost predicate DoublePrecision(w: World) {
    forall b, n: nat :: Fits(b) ==> RoundsProduct(w, b, n)
  }

  /** How long the timer of the k-th wait runs: not at all for a negative duration. */
  function Pause(d: Delivery, w: World, k: nat): nat
    requires k >= 1
  {
    if Backoff(d, w, k) < 0 then 0 else Backoff(d, w, k)
  }

  function Clamp(x: int): nat {
    if x < 0 then 0 else if x > MAX_BACKOFF then MAX_BACKOFF else x
  }

  /** The k-th pause is min(60s, backoff * 5^(k-1)), or none for a negative backoff, exactly when the
      product as computed still fits the duration type, or the platform happens to convert it to what
      comes to the same. */
  lemma WaitFormula(d: Delivery, w: World, k: nat)
    requires k >= 1 && Fits(d.retryBackoff) && DoublePrecision(w)
    ensures var exact, product := d.retryBackoff * Pow5(k - 1), w.product(d.retryBackoff, k - 1);
            Pause(d, w, k) == Clamp(exact)
            <==> Fits(product) || (if exact > 0 then w.convert(product) >= MAX_BACKOFF else w.convert(product) <= 0)
  {
    assert RoundsProduct(w, d.retryBackoff, k - 1);
    ProductSize(d.retryBackoff, k - 1);
  }

  /** Beyond any finite double the exact product is beyond the cap too. */
  lemma ProductSize(b: int, n: nat)
    ensures b == 0 ==> b * Pow5(n) == 0
    ensures n > 400 && b > 0 ==> b * Pow5(n) > MAX_BACKOFF
    ensures n > 400 && b < 0 ==> b * Pow5(n) < 0
  {
    if n > 400 {
      LargePower();
      Pow5Grows(16, n);
      if b > 0 { Times(b, Pow5(n)); } else if b < 0 { Times(-b, Pow5(n)); }
    }
  }

  lemma Times(b: nat, m: nat)
    requires b >= 1
    ensures b * m >= m && 0 - b * m == (0 - b) * m
  {}

  lemma LargePower()
    ensures Pow5(3) == 125 && Pow5(14) == 6103515625 && Pow5(15) == 30517578125 && Pow5(16) == 152587890625
  {
    assert Pow5(6) == 15625;
    assert Pow5(9) == 1953125;
    assert Pow5(12) == 244140625;
  }

  /** On a platform that converts out-of-range values to the smallest int64, as amd64 does, the default
      backoff of one second stops being a wait from the sixteenth retry on. */
  lemma DefaultBackoffOverflows(d: Delivery, w: World, k: nat)
    requires d.retryBackoff == SECOND && DoublePrecision(w) && forall x :: x > INT64_MAX ==> w.convert(x) == INT64_MIN
    ensures 4 <= k <= 15 ==> Pause(d, w, k) == MAX_BACKOFF
    ensures k >= 16 ==> Pause(d, w, k) == 0
  {
    if k >= 4 {
      assert RoundsProduct(w, SECOND, k - 1);
      LargePower();
      Pow5Grows(3, k - 1);
      if k <= 15 { Pow5Grows(k - 1, 14); } else { Pow5Grows(15, k - 1); }
    }
  }

  lemma {:induction false} Pow5Grows(m: nat, n: nat)
    requires m <= n
    ensures Pow5(m) <= Pow5(n)
    decreases n
  {
    if m < n { Pow5Grows(m, n - 1); }
  }
}
