/** Every interleaving of the callers of one botx client (`do` in botx/client.go) with its detached
    token requests. */
module TokenRuns {
  import opened TokenClient
  import opened Wrappers

  datatype Response = Status(code: nat) | SendFailed

  datatype Result = Responded(response: Response) | TokenFailed(error: string) | Cancelled

  /** Where one call of `do` stands. `gen` is always the generation of the token it sent first. */
  datatype Phase =
    | WaitFirst(call: nat)
    | Sending(token: string, gen: nat)
    | Rejected(gen: nat)
    | WaitRenew(call: nat, gen: nat)
    | Resending(token: string, newGen: nat, gen: nat)
    | Finished(result: Result)

  /** `sent` are the generations of the tokens this call has sent, in order. */
  datatype Caller = Caller(phase: Phase, sent: seq<nat>)

  /** `issued[g]` is the token of generation g, `refused` the generations answered with 401. */
  datatype System = System(client: Client, callers: seq<Caller>, issued: seq<string>, refused: set<nat>)

  datatype Event =
    | Begin
    | Answer(call: nat, reply: Reply)
    | PublishCall(call: nat)
    | Close(call: nat)
    | Receive(caller: nat)
    | Cancel(caller: nat)
    | Respond(caller: nat, response: Response)
    | StartRenew(caller: nat)

  predicate IsWaiting(p: Phase) {
    p.WaitFirst? || p.WaitRenew?
  }

  predicate Enabled(s: System, e: Event) {
    match e
    case Begin => true
    case Answer(call, reply) =>
      call < |s.client.calls| && s.client.calls[call].Requesting? && reply != Token("")
    case PublishCall(call) => call < |s.client.calls| && s.client.calls[call].Answered?
    case Close(call) => call < |s.client.calls| && s.client.calls[call].Published?
    case Receive(i) =>
      && i < |s.callers| && IsWaiting(s.callers[i].phase)
      && s.callers[i].phase.call < |s.client.calls| && s.client.calls[s.callers[i].phase.call].Closed?
    case Cancel(i) => i < |s.callers| && IsWaiting(s.callers[i].phase)
    case Respond(i, _) => i < |s.callers| && (s.callers[i].phase.Sending? || s.callers[i].phase.Resending?)
    case StartRenew(i) => i < |s.callers| && s.callers[i].phase.Rejected?
  }

  /** The token has been obtained: the call sends with it, first or for the second time. */
  function Send(p: Phase, sent: seq<nat>, token: string, gen: nat): Caller {
    if p.WaitFirst? then Caller(Sending(token, gen), sent + [gen])
    else if p.WaitRenew? || p.Rejected? then Caller(Resending(token, gen, p.gen), sent + [gen])
    else Caller(p, sent)
  }

  function AfterReceive(caller: Caller, call: TokenCall): Caller
    requires call.Closed?
  {
    match call.error
    case Some(error) => caller.(phase := Finished(TokenFailed(error)))
    case None => Send(caller.phase, caller.sent, call.token, call.gen)
  }

  function AfterResponse(hasSecret: bool, p: Phase, response: Response): Phase {
    if p.Sending? && response == Status(401) && hasSecret then Rejected(p.gen)
    else Finished(Responded(response))
  }

  function TokenGen(p: Phase): nat
    requires p.Sending? || p.Resending?
  {
    if p.Sending? then p.gen else p.newGen
  }

  function Apply(s: System, e: Event): System
    requires Enabled(s, e)
  {
    match e
    case Begin =>
      var (client, r) := Current(s.client);
      var caller := match r
        case Ready(token, gen) => Caller(Sending(token, gen), [gen])
        case Wait(call) => Caller(WaitFirst(call), []);
      s.(client := client, callers := s.callers + [caller])
    case Answer(call, reply) => s.(client := s.client.(calls := s.client.calls[call := Answered(reply)]))
    case PublishCall(call) =>
      var reply := s.client.calls[call].reply;
      s.(client := Publish(s.client, call), issued := if reply.Token? then s.issued + [reply.token] else s.issued)
    case Close(call) =>
      var done := s.client.calls[call];
      s.(client := s.client.(calls := s.client.calls[call := Closed(done.token, done.gen, done.error)]))
    case Receive(i) =>
      var caller := s.callers[i];
      s.(callers := s.callers[i := AfterReceive(caller, s.client.calls[caller.phase.call])])
    case Cancel(i) => s.(callers := s.callers[i := s.callers[i].(phase := Finished(Cancelled))])
    case Respond(i, response) =>
      var p := s.callers[i].phase;
      s.(callers := s.callers[i := s.callers[i].(phase := AfterResponse(s.client.hasSecret, p, response))],
         refused := if response == Status(401) then s.refused + {TokenGen(p)} else s.refused)
    case StartRenew(i) =>
      var caller := s.callers[i];
      var (client, r) := Renew(s.client, caller.phase.gen);
      var next := match r
        case Ready(token, gen) => Send(caller.phase, caller.sent, token, gen)
        case Wait(call) => caller.(phase := WaitRenew(call, caller.phase.gen));
      s.(client := client, callers := s.callers[i := next])
  }

  predicate Initial(s: System) {
    && s.client.gen == 0 && s.client.inflight == None && s.client.calls == []
    && (s.client.hasSecret ==> s.client.token == "")
    && s.callers == [] && s.issued == [s.client.token] && s.refused == {}
  }

  datatype RunResult = Stuck | At(state: System)

  function Run(init: System, events: seq<Event>): RunResult {
    if events == [] then At(init) else
      match Run(init, events[..|events| - 1])
      case Stuck => Stuck
      case At(s) =>
        var e := events[|events| - 1];
        if Enabled(s, e) then At(Apply(s, e)) else Stuck
  }

  // ---- the invariant -----------------------------------------------------------------------------

  ghost predicate CallOk(s: System, id: nat)
    requires id < |s.client.calls|
  {
    var call := s.client.calls[id];
    && (call.Unfinished() ==> s.client.inflight == Some(id))
    && (call.Answered? ==> call.reply != Token(""))
    && (call.Succeeded() ==> 1 <= call.gen <= s.client.gen && call.gen < |s.issued| && call.token == s.issued[call.gen])
  }

  /** At most one request is under way, and the client knows it. */
  ghost predicate CallsOk(s: System) {
    && (forall id :: 0 <= id < |s.client.calls| ==> CallOk(s, id))
    && (s.client.inflight.Some? ==>
          s.client.inflight.value < |s.client.calls| && s.client.calls[s.client.inflight.value].Unfinished())
  }

  function Successes(calls: seq<TokenCall>): nat {
    if calls == [] then 0
    else Successes(calls[..|calls| - 1]) + if calls[|calls| - 1].Succeeded() then 1 else 0
  }

  ghost predicate TokensOk(s: System) {
    var c := s.client;
    && |s.issued| == c.gen + 1 && s.issued[c.gen] == c.token
    && Successes(c.calls) == c.gen
    && (c.hasSecret ==> s.issued[0] == "" && forall g :: 1 <= g <= c.gen ==> s.issued[g] != "")
    && (!c.hasSecret ==> c.calls == [] && c.gen == 0)
  }

  /** Every generation that was replaced, or is being replaced, had been answered 401. */
  ghost predicate RefusedOk(s: System) {
    && (forall g :: 1 <= g < s.client.gen ==> g in s.refused)
    && (s.client.inflight.Some? && 1 <= s.client.gen ==> s.client.gen in s.refused)
  }

  /** A sent token of generation g: the right one, and a real one when the client has a secret. */
  ghost predicate GoodToken(s: System, token: string, g: nat) {
    g <= s.client.gen && g < |s.issued| && token == s.issued[g] && (s.client.hasSecret ==> 1 <= g)
  }

  ghost predicate CallerOk(s: System, i: nat)
    requires i < |s.callers|
  {
    var caller, c := s.callers[i], s.client;
    match caller.phase
    case WaitFirst(call) => caller.sent == [] && call < |c.calls| && c.hasSecret
    case Sending(token, g) => caller.sent == [g] && GoodToken(s, token, g)
    case Rejected(g) => caller.sent == [g] && c.hasSecret && 1 <= g <= c.gen && g in s.refused
    case WaitRenew(call, g) =>
      && caller.sent == [g] && c.hasSecret && 1 <= g <= c.gen && g in s.refused && call < |c.calls|
      && (c.calls[call].Unfinished() ==> c.gen == g) && (c.calls[call].Succeeded() ==> c.calls[call].gen > g)
    case Resending(token, n, g) =>
      caller.sent == [g, n] && g < n && GoodToken(s, token, n) && g in s.refused && c.hasSecret
    case Finished(result) =>
      && |caller.sent| <= 2
      && (|caller.sent| == 2 ==> caller.sent[0] < caller.sent[1] && caller.sent[0] in s.refused && c.hasSecret)
      && ResultOk(c, result, |caller.sent|)
  }

  ghost predicate FailedWith(c: Client, id: nat, error: string) {
    id < |c.calls| && !c.calls[id].Unfinished() && c.calls[id].error == Some(error)
  }

  ghost predicate SomeFailedWith(c: Client, error: string) {
    exists id :: FailedWith(c, id, error)
  }

  /** A response answers a send, a 401 the second one if there can be a second one, and a token error
      is that of a token request. */
  ghost predicate ResultOk(c: Client, result: Result, sends: nat) {
    match result
    case Responded(response) => 1 <= sends && (response == Status(401) && c.hasSecret ==> sends == 2)
    case TokenFailed(error) => SomeFailedWith(c, error)
    case Cancelled => true
  }

  ghost predicate CallersOk(s: System) {
    forall i :: 0 <= i < |s.callers| ==> CallerOk(s, i)
  }

  ghost predicate Inv(s: System) {
    CallsOk(s) && TokensOk(s) && RefusedOk(s) && CallersOk(s)
  }

  lemma {:induction false} SuccessesAppend(calls: seq<TokenCall>, call: TokenCall)
    ensures Successes(calls + [call]) == Successes(calls) + if call.Succeeded() then 1 else 0
  {
    assert (calls + [call])[..|calls|] == calls;
  }

  lemma {:induction false} SuccessesUpdate(calls: seq<TokenCall>, i: nat, call: TokenCall)
    requires i < |calls|
    ensures Successes(calls[i := call]) == Successes(calls)
              - (if calls[i].Succeeded() then 1 else 0) + (if call.Succeeded() then 1 else 0)
  {
    var n := |calls| - 1;
    if i < n {
      SuccessesUpdate(calls[..n], i, call);
      assert calls[i := call][..n] == calls[..n][i := call];
    } else {
      assert calls[i := call][..n] == calls[..n];
    }
  }

  // ---- each step keeps it ------------------------------------------------------------------------

  lemma JoinKept(s: System, s': System)
    requires CallsOk(s) && TokensOk(s) && s.client.hasSecret
    requires s' == s.(client := Join(s.client).0)
    ensures CallsOk(s') && TokensOk(s') && Join(s.client).1 < |s'.client.calls|
    ensures s'.client.calls[Join(s.client).1].Unfinished()
    ensures s.client.calls <= s'.client.calls && s'.client.gen == s.client.gen
    ensures s'.client.inflight == Some(Join(s.client).1)
  {
    SuccessesAppend(s.client.calls, Requesting);
    forall id | 0 <= id < |s'.client.calls|
      ensures CallOk(s', id)
    {
      if id < |s.client.calls| { assert CallOk(s, id); }
    }
  }

  /** How one call may change in a step; while it is unfinished the generation stands still, and when
      it succeeds it carries a newer one. */
  ghost predicate CallMoves(c: Client, c': Client, id: nat)
    requires id < |c.calls| <= |c'.calls|
  {
    var a, b := c.calls[id], c'.calls[id];
    && (b.Unfinished() ==> a.Unfinished() && c'.gen == c.gen)
    && (!a.Unfinished() ==> !b.Unfinished() && b.error == a.error)
    && (b.Succeeded() ==>
          || (a.Succeeded() && b.gen == a.gen && b.token == a.token)
          || (a.Unfinished() && b.gen == c.gen + 1))
  }

  /** What a step leaves alone for everybody who takes no part in it. */
  ghost predicate Extends(s: System, s': System) {
    && s'.client.hasSecret == s.client.hasSecret
    && s.client.gen <= s'.client.gen && |s.client.calls| <= |s'.client.calls|
    && s.issued <= s'.issued && s.refused <= s'.refused
    && forall id :: 0 <= id < |s.client.calls| ==> CallMoves(s.client, s'.client, id)
  }

  lemma FailureKept(s: System, s': System, error: string)
    requires Extends(s, s') && SomeFailedWith(s.client, error)
    ensures SomeFailedWith(s'.client, error)
  {
    var id :| FailedWith(s.client, id, error);
    assert CallMoves(s.client, s'.client, id);
    assert FailedWith(s'.client, id, error);
  }

  lemma BystanderKept(s: System, s': System, i: nat)
    requires Extends(s, s') && i < |s.callers| && i < |s'.callers| && s'.callers[i] == s.callers[i]
    requires CallerOk(s, i)
    ensures CallerOk(s', i)
  {
    match s.callers[i].phase {
      case WaitRenew(call, _) => assert CallMoves(s.client, s'.client, call);
      case Finished(result) => if result.TokenFailed? { FailureKept(s, s', result.error); }
      case _ =>
    }
  }

  lemma BystandersKept(s: System, s': System, except: nat)
    requires Inv(s) && Extends(s, s') && |s.callers| <= |s'.callers|
    requires forall i :: 0 <= i < |s.callers| && i != except ==> s'.callers[i] == s.callers[i]
    requires |s'.callers| > |s.callers| ==> |s'.callers| == |s.callers| + 1 && except == |s.callers|
    requires except < |s'.callers| ==> CallerOk(s', except)
    ensures CallersOk(s')
  {
    forall i | 0 <= i < |s'.callers|
      ensures CallerOk(s', i)
    {
      if i != except {
        assert CallerOk(s, i);
        BystanderKept(s, s', i);
      }
    }
  }

  lemma JoinExtends(s: System, s': System)
    requires CallsOk(s) && s' == s.(client := Join(s.client).0)
    ensures Extends(s, s')
  {}

  lemma BeginKept(s: System)
    requires Inv(s)
    ensures Inv(Apply(s, Begin))
  {
    match Current(s.client).1 {
      case Ready(_, _) => ReadyKept(s);
      case Wait(_) => FirstWaitKept(s);
    }
  }

  lemma ReadyKept(s: System)
    requires Inv(s) && Current(s.client).1.Ready?
    ensures Inv(Apply(s, Begin))
  {
    var s' := Apply(s, Begin);
    assert s'.client == s.client;
    forall id | 0 <= id < |s'.client.calls|
      ensures CallOk(s', id)
    {
      assert CallOk(s, id);
    }
    BystandersKept(s, s', |s.callers|);
  }

  lemma FirstWaitKept(s: System)
    requires Inv(s) && Current(s.client).1.Wait?
    ensures Inv(Apply(s, Begin))
  {
    var s', joined := Apply(s, Begin), s.(client := Join(s.client).0);
    JoinKept(s, joined);
    JoinExtends(s, joined);
    assert s.client.gen == 0 && s'.client == joined.client;
    forall id | 0 <= id < |s'.client.calls|
      ensures CallOk(s', id)
    {
      assert CallOk(joined, id);
    }
    BystandersKept(s, s', |s.callers|);
  }

  lemma StartRenewKept(s: System, i: nat)
    requires Inv(s) && Enabled(s, StartRenew(i))
    ensures Inv(Apply(s, StartRenew(i)))
  {
    var s' := Apply(s, StartRenew(i));
    assert CallerOk(s, i);
    var joined := s.(client := Join(s.client).0);
    if Renew(s.client, s.callers[i].phase.gen).1.Wait? {
      JoinKept(s, joined);
      JoinExtends(s, joined);
    }
    assert CallsOk(s') by {
      forall id | 0 <= id < |s'.client.calls|
        ensures CallOk(s', id)
      {
        if Renew(s.client, s.callers[i].phase.gen).1.Wait? { assert CallOk(joined, id); } else { assert CallOk(s, id); }
      }
    }
    assert Extends(s, s');
    BystandersKept(s, s', i);
  }

  lemma CallMoveKept(s: System, e: Event)
    requires Inv(s) && Enabled(s, e) && (e.Answer? || e.Close?)
    ensures Inv(Apply(s, e))
  {
    var s' := Apply(s, e);
    assert CallOk(s, e.call);
    SuccessesUpdate(s.client.calls, e.call, s'.client.calls[e.call]);
    forall id | 0 <= id < |s'.client.calls|
      ensures CallOk(s', id) && CallMoves(s.client, s'.client, id)
    {
      assert CallOk(s, id);
    }
    BystandersKept(s, s', |s.callers|);
  }

  lemma PublishKept(s: System, call: nat)
    requires Inv(s) && Enabled(s, PublishCall(call))
    ensures Inv(Apply(s, PublishCall(call)))
  {
    var s' := Apply(s, PublishCall(call));
    assert CallOk(s, call);
    SuccessesUpdate(s.client.calls, call, s'.client.calls[call]);
    forall id | 0 <= id < |s'.client.calls|
      ensures CallOk(s', id) && CallMoves(s.client, s'.client, id)
    {
      assert CallOk(s, id);
    }
    BystandersKept(s, s', |s.callers|);
  }

  lemma ReceiveKept(s: System, i: nat)
    requires Inv(s) && Enabled(s, Receive(i))
    ensures CallerOk(Apply(s, Receive(i)), i)
  {
    var id := s.callers[i].phase.call;
    assert CallerOk(s, i) && CallOk(s, id);
    var call := s.client.calls[id];
    if call.error.Some? { assert FailedWith(s.client, id, call.error.value); }
  }

  lemma CallerMoveKept(s: System, e: Event)
    requires Inv(s) && Enabled(s, e) && (e.Receive? || e.Cancel? || e.Respond?)
    ensures Inv(Apply(s, e))
  {
    var s', i := Apply(s, e), e.caller;
    assert CallerOk(s, i);
    if e.Receive? { ReceiveKept(s, i); }
    assert CallerOk(s', i);
    forall id | 0 <= id < |s'.client.calls|
      ensures CallOk(s', id)
    {
      assert CallOk(s, id);
    }
    BystandersKept(s, s', i);
  }

  lemma {:induction false} InvHolds(init: System, events: seq<Event>)
    requires Initial(init)
    ensures Run(init, events).At? ==> Inv(Run(init, events).state)
  {
    if events != [] && Run(init, events).At? {
      var before := events[..|events| - 1];
      InvHolds(init, before);
      var s, e := Run(init, before).state, events[|events| - 1];
      match e {
        case Begin => BeginKept(s);
        case StartRenew(i) => StartRenewKept(s, i);
        case Answer(_, _) => CallMoveKept(s, e);
        case Close(_) => CallMoveKept(s, e);
        case PublishCall(call) => PublishKept(s, call);
        case _ => CallerMoveKept(s, e);
      }
    }
  }

  // ---- what holds in every run ---------------------------------------------------------------------

  /** At most one token request is under way, and the generation is the number of successful ones. */
  lemma OneRequestAtATime(init: System, events: seq<Event>, s: System)
    requires Initial(init) && Run(init, events) == At(s)
    ensures forall i, j ::
              (0 <= i < |s.client.calls| && 0 <= j < |s.client.calls|
               && s.client.calls[i].Unfinished() && s.client.calls[j].Unfinished()) ==> i == j
    ensures s.client.inflight.Some? <==> exists i :: 0 <= i < |s.client.calls| && s.client.calls[i].Unfinished()
    ensures s.client.gen == Successes(s.client.calls)
  {
    InvHolds(init, events);
    forall i, j | 0 <= i < |s.client.calls| && 0 <= j < |s.client.calls|
                  && s.client.calls[i].Unfinished() && s.client.calls[j].Unfinished()
      ensures i == j
    {
      assert CallOk(s, i) && CallOk(s, j);
    }
    if i :| 0 <= i < |s.client.calls| && s.client.calls[i].Unfinished() { assert CallOk(s, i); }
  }

  /** While a request is under way the generation does not change, and a failed one changes neither
      token nor generation: only a successful request does, by one. */
  lemma GenerationMovesOnlyBySuccess(init: System, events: seq<Event>, s: System, e: Event)
    requires Initial(init) && Run(init, events) == At(s) && Enabled(s, e)
    requires Apply(s, e).client.gen != s.client.gen || Apply(s, e).client.token != s.client.token
    ensures e.PublishCall? && s.client.inflight == Some(e.call) && s.client.calls[e.call].reply.Token?
    ensures Apply(s, e).client.gen == s.client.gen + 1 && Apply(s, e).client.inflight == None
    ensures Apply(s, e).client.token == s.client.calls[e.call].reply.token != ""
  {
    InvHolds(init, events);
    if e.PublishCall? { assert CallOk(s, e.call); }
  }

  lemma {:induction false} AtLeast(n: nat, refused: set<nat>)
    requires forall g :: 1 <= g <= n ==> g in refused
    ensures n <= |refused|
  {
    if n > 0 {
      AtLeast(n - 1, refused - {n});
    }
  }

  /** Tokens are renewed no more often than they are refused: the generation is at most one more than
      the number of generations answered 401. */
  lemma RenewalsArePaidFor(init: System, events: seq<Event>, s: System)
    requires Initial(init) && Run(init, events) == At(s)
    ensures s.client.gen <= |s.refused| + 1
    ensures forall g :: 1 <= g < s.client.gen ==> g in s.refused
  {
    InvHolds(init, events);
    if s.client.gen > 0 {
      AtLeast(s.client.gen - 1, s.refused);
    }
  }

  /** A call sends at most twice; the second time with a strictly newer token, after the first was
      answered 401. What it is about to send is the token of its generation, and not an empty one
      unless the client was given none. */
  lemma EachCallSendsAtMostTwice(init: System, events: seq<Event>, s: System, i: nat)
    requires Initial(init) && Run(init, events) == At(s) && i < |s.callers|
    ensures var sent := s.callers[i].sent;
            |sent| <= 2 && (|sent| == 2 ==> sent[0] < sent[1] && sent[0] in s.refused && s.client.hasSecret)
    ensures var p := s.callers[i].phase;
            p.Sending? || p.Resending? ==>
              && TokenGen(p) < |s.issued| && p.token == s.issued[TokenGen(p)]
              && (s.client.hasSecret ==> p.token != "")
  {
    InvHolds(init, events);
    assert CallerOk(s, i);
  }

  // ---- what each step does to its caller -----------------------------------------------------------

  /** A new call sends the token there is, or waits for the one request under way, which it starts if needed. */
  lemma FirstToken(s: System)
    ensures var s', c := Apply(s, Begin), s.client;
            && s'.callers[..|s.callers|] == s.callers && |s'.callers| == |s.callers| + 1
            && var caller := s'.callers[|s.callers|];
               if c.token != "" || !c.hasSecret
               then s'.client == c && caller == Caller(Sending(c.token, c.gen), [c.gen])
               else WaitsForTheRequest(c, s'.client) && caller == Caller(WaitFirst(s'.client.inflight.value), [])
  {}

  /** The client asks for a token: the request under way is kept, and if there is none, one is started. */
  ghost predicate WaitsForTheRequest(c: Client, c': Client) {
    && c'.inflight.Some? && c'.token == c.token && c'.gen == c.gen
    && (c.inflight.Some? ==> c' == c)
    && (c.inflight.None? ==> c'.inflight == Some(|c.calls|) && c'.calls == c.calls + [Requesting])
  }

  /** A rejected call sends the token that has replaced its own, if one has; otherwise it waits for a renewal. */
  lemma RenewedToken(init: System, events: seq<Event>, s: System, i: nat)
    requires Initial(init) && Run(init, events) == At(s) && Enabled(s, StartRenew(i))
    ensures var s', c, sent := Apply(s, StartRenew(i)), s.client, s.callers[i].sent;
            && |sent| == 1 && var first := sent[0];
               if first != c.gen
               then s'.client == c && s'.callers[i] == Caller(Resending(c.token, c.gen, first), [first, c.gen])
               else WaitsForTheRequest(c, s'.client)
                    && s'.callers[i] == Caller(WaitRenew(s'.client.inflight.value, first), [first])
  {
    InvHolds(init, events);
    assert CallerOk(s, i);
  }

  /** A waiter whose request failed ends with its error; else it sends the token of that request. */
  lemma TokenReceived(init: System, events: seq<Event>, s: System, i: nat)
    requires Initial(init) && Run(init, events) == At(s) && Enabled(s, Receive(i))
    ensures var call, sent, after := s.client.calls[s.callers[i].phase.call], s.callers[i].sent,
                                     Apply(s, Receive(i)).callers[i];
            match call.error
            case Some(error) => after == Caller(Finished(TokenFailed(error)), sent)
            case None => after.sent == sent + [call.gen] && |sent| <= 1
                         && after.phase == if sent == [] then Sending(call.token, call.gen)
                                           else Resending(call.token, call.gen, sent[0])
  {
    InvHolds(init, events);
    assert CallerOk(s, i);
  }

  /** Every response ends its call as it is, except a first 401 when there is a secret: then the call renews. */
  lemma ResponseEnds(init: System, events: seq<Event>, s: System, i: nat, response: Response)
    requires Initial(init) && Run(init, events) == At(s) && Enabled(s, Respond(i, response))
    ensures var s', sent := Apply(s, Respond(i, response)), s.callers[i].sent;
            && s'.callers[i].sent == sent && |sent| in {1, 2}
            && if response == Status(401) && |sent| == 1 && s.client.hasSecret
               then Enabled(s', StartRenew(i))
               else s'.callers[i].phase == Finished(Responded(response))
  {
    InvHolds(init, events);
    assert CallerOk(s, i);
  }

  /** A call that reports a 401 although there is a secret has tried a second token. */
  lemma UnauthorizedOnlyTwice(init: System, events: seq<Event>, s: System, i: nat)
    requires Initial(init) && Run(init, events) == At(s) && i < |s.callers|
    requires s.callers[i].phase == Finished(Responded(Status(401))) && s.client.hasSecret
    ensures |s.callers[i].sent| == 2
  {
    InvHolds(init, events);
    assert CallerOk(s, i);
  }

  /** A call fails for want of a token only with the error of a token request. */
  lemma TokenErrorIsReal(init: System, events: seq<Event>, s: System, i: nat, error: string) returns (id: nat)
    requires Initial(init) && Run(init, events) == At(s) && i < |s.callers|
    requires s.callers[i].phase == Finished(TokenFailed(error))
    ensures FailedWith(s.client, id, error)
  {
    InvHolds(init, events);
    assert CallerOk(s, i);
    id :| FailedWith(s.client, id, error);
  }

  /** A generation counts as refused once it was the last one sent by a call that is answered 401. */
  lemma RefusedExactly(init: System, events: seq<Event>, s: System, e: Event, g: nat)
    requires Initial(init) && Run(init, events) == At(s) && Enabled(s, e)
    ensures g in Apply(s, e).refused <==>
            || g in s.refused
            || (e.Respond? && e.response == Status(401)
                && var sent := s.callers[e.caller].sent; sent != [] && sent[|sent| - 1] == g)
  {
    InvHolds(init, events);
    if e.Respond? { assert CallerOk(s, e.caller); }
  }

  /** What a request gave is what was answered to it: the error of a failure, or the token of a success,
      which is the one issued under its generation. */
  lemma RequestTellsItsAnswer(init: System, events: seq<Event>, s: System, id: nat) returns (n: nat)
    requires Initial(init) && Run(init, events) == At(s) && id < |s.client.calls| && !s.client.calls[id].Requesting?
    ensures n < |events| && events[n].Answer? && events[n].call == id
    ensures Tells(s.client.calls[id], events[n].reply)
    ensures var call := s.client.calls[id];
            call.Succeeded() ==> call.gen < |s.issued| && call.token == s.issued[call.gen]
  {
    InvHolds(init, events);
    assert CallOk(s, id);
    n := AnswerGiven(init, events, s, id);
  }

  lemma NothingBefore(init: System, events: seq<Event>)
    requires Initial(init) && Run(init, events).At? && Run(init, events).state.client.calls != []
    ensures events != []
  {}

  lemma AnswerGiven(init: System, events: seq<Event>, s: System, id: nat) returns (n: nat)
    requires Initial(init) && Run(init, events) == At(s) && id < |s.client.calls| && !s.client.calls[id].Requesting?
    ensures n < |events| && events[n].Answer? && events[n].call == id
    ensures Tells(s.client.calls[id], events[n].reply)
  {
    NothingBefore(init, events);
    var last := |events| - 1;
    var before := Run(init, events[..last]).state;
    if events[last].Answer? && events[last].call == id {
      n := last;
    } else {
      RequestStays(before, events[last], id);
      n := AnswerGiven(init, events[..last], before, id);
    }
  }

  ghost predicate Tells(call: TokenCall, reply: Reply) {
    match call
    case Requesting => false
    case Answered(r) => r == reply
    case _ => match reply
              case Token(token) => call.error == None && call.token == token
              case Failure(error) => call.error == Some(error)
  }

  /** Only its answer completes a request; later steps pass that answer on. */
  lemma RequestStays(s: System, e: Event, id: nat)
    requires Enabled(s, e) && id < |Apply(s, e).client.calls| && !Apply(s, e).client.calls[id].Requesting?
    requires !(e.Answer? && e.call == id)
    ensures id < |s.client.calls| && !s.client.calls[id].Requesting?
    ensures forall reply :: Tells(s.client.calls[id], reply) ==> Tells(Apply(s, e).client.calls[id], reply)
  {}

  /** Nobody waits for nothing: a waiter's request is the one in flight, or it has been published and only
      its close, or the waiter's own receipt, is left. */
  lemma WaitersAreServed(init: System, events: seq<Event>, s: System, i: nat)
    requires Initial(init) && Run(init, events) == At(s) && i < |s.callers| && IsWaiting(s.callers[i].phase)
    ensures var call := s.callers[i].phase.call;
            && call < |s.client.calls|
            && if s.client.calls[call].Unfinished() then s.client.inflight == Some(call)
               else Enabled(s, Close(call)) || Enabled(s, Receive(i))
  {
    InvHolds(init, events);
    assert CallerOk(s, i);
    assert CallOk(s, s.callers[i].phase.call);
  }

  /** A renewal that succeeds hands back a generation above the rejected one, whether another call had
      renewed already or the shared request was waited for. */
  lemma RenewalIsNewer(init: System, events: seq<Event>, s: System, e: Event, i: nat)
    requires Initial(init) && Run(init, events) == At(s) && Enabled(s, e) && i < |s.callers|
    requires s.callers[i].phase.Rejected? || s.callers[i].phase.WaitRenew?
    requires Apply(s, e).callers[i].phase.Resending?
    ensures Apply(s, e).callers[i].phase.newGen > s.callers[i].phase.gen
  {
    InvHolds(init, events);
    InvHolds(init, events + [e]);
    assert (events + [e])[..|events|] == events;
    assert CallerOk(Apply(s, e), i) && CallerOk(s, i);
  }

  /** A client built with a ready token never asks for another and never sends twice. */
  lemma StaticTokenIsNeverRenewed(init: System, events: seq<Event>, s: System)
    requires Initial(init) && Run(init, events) == At(s) && !init.client.hasSecret
    ensures s.client == init.client && s.issued == [init.client.token]
    ensures forall i :: 0 <= i < |s.callers| ==> |s.callers[i].sent| <= 1
  {
    StaticStays(init, events);
    InvHolds(init, events);
    forall i | 0 <= i < |s.callers|
      ensures |s.callers[i].sent| <= 1
    {
      assert CallerOk(s, i);
    }
  }

  lemma {:induction false} StaticStays(init: System, events: seq<Event>)
    requires Initial(init) && !init.client.hasSecret && Run(init, events).At?
    ensures Run(init, events).state.client == init.client && Run(init, events).state.issued == init.issued
  {
    if events != [] {
      var before := events[..|events| - 1];
      StaticStays(init, before);
      InvHolds(init, before);
      var s, e := Run(init, before).state, events[|events| - 1];
      if e.StartRenew? { NoRejectionWithoutSecret(s, e.caller); }
    }
  }

  lemma NoRejectionWithoutSecret(s: System, i: nat)
    requires Inv(s) && i < |s.callers| && !s.client.hasSecret
    ensures !s.callers[i].phase.Rejected?
  {
    assert CallerOk(s, i);
  }
}
