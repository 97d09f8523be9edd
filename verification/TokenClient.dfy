/** botx/client.go: the bot token of a client and the sections that run under its mutex. */
module TokenClient {
  import opened Wrappers

  /** What the token endpoint answers; a token it gives is never empty. */
  datatype Reply = Token(token: string) | Failure(error: string)

  /** One shared token request: under way, answered, its result published in the client and in the
      call, and its waiters released. A published call carries the client's token and generation. */
  datatype TokenCall =
    | Requesting
    | Answered(reply: Reply)
    | Published(token: string, gen: nat, error: Option<string>)
    | Closed(token: string, gen: nat, error: Option<string>)
  {
    predicate Unfinished() {
      Requesting? || Answered?
    }

    predicate Succeeded() {
      !Unfinished() && error.None?
    }
  }

  /** `hasSecret` is the difference between New and NewWithToken. A reference to a call is its index in
      the list of calls ever made. */
  datatype Client = Client(hasSecret: bool, token: string, gen: nat, inflight: Option<nat>, calls: seq<TokenCall>)

  datatype TokenAnswer = Ready(token: string, gen: nat) | Wait(call: nat)

  /** startTokenCall: join the request in flight or start one. */
  function Join(c: Client): (Client, nat) {
    match c.inflight
    case Some(call) => (c, call)
    case None => (c.(inflight := Some(|c.calls|), calls := c.calls + [Requesting]), |c.calls|)
  }

  function Current(c: Client): (Client, TokenAnswer) {
    if c.token != "" || !c.hasSecret then (c, Ready(c.token, c.gen))
    else var (c', call) := Join(c); (c', Wait(call))
  }

  function Renew(c: Client, gen: nat): (Client, TokenAnswer) {
    if c.gen != gen then (c, Ready(c.token, c.gen))
    else var (c', call) := Join(c); (c', Wait(call))
  }

  function Publish(c: Client, call: nat): Client
    requires call < |c.calls| && c.calls[call].Answered?
  {
    match c.calls[call].reply
    case Token(token) =>
      Client(c.hasSecret, token, c.gen + 1, None, c.calls[call := Published(token, c.gen + 1, None)])
    case Failure(error) =>
      Client(c.hasSecret, c.token, c.gen, None, c.calls[call := Published(c.token, c.gen, Some(error))])
  }

  class TokenHolder {
    const hasSecret: bool
    var token: string
    var gen: nat
    var inflight: Option<nat>
    var calls: seq<TokenCall>

    constructor New()
      ensures View() == Client(true, "", 0, None, [])
    {
      hasSecret, token, gen, inflight, calls := true, "", 0, None, [];
    }

    constructor NewWithToken(token: string)
      ensures View() == Client(false, token, 0, None, [])
    {
      hasSecret, gen, inflight, calls := false, 0, None, [];
      this.token := token;
    }

    function View(): Client
      reads this
    {
      Client(hasSecret, token, gen, inflight, calls)
    }

    method StartTokenCall() returns (call: nat)
      modifies this`inflight, this`calls
      ensures (View(), call) == Join(old(View()))
    {
      if inflight.Some? {
        return inflight.value;
      }
      call := |calls|;
      calls := calls + [Requesting];
      inflight := Some(call);
    }

    method CurrentToken() returns (r: TokenAnswer)
      modifies this`inflight, this`calls
      ensures (View(), r) == Current(old(View()))
    {
      if token != "" || !hasSecret {
        return Ready(token, gen);
      }
      var call := StartTokenCall();
      return Wait(call);
    }

    method RenewToken(rejected: nat) returns (r: TokenAnswer)
      modifies this`inflight, this`calls
      ensures (View(), r) == Renew(old(View()), rejected)
    {
      if gen != rejected {
        return Ready(token, gen);
      }
      var call := StartTokenCall();
      return Wait(call);
    }

    method PublishCall(call: nat)
      requires call < |calls| && calls[call].Answered?
      modifies this
      ensures View() == Publish(old(View()), call)
    {
      var error := None;
      match calls[call].reply {
        case Token(tok) =>
          token := tok;
          gen := gen + 1;
        case Failure(e) =>
          error := Some(e);
      }
      calls := calls[call := Published(token, gen, error)];
      inflight := None;
    }
  }
}
