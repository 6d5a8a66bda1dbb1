/**
  Sending a request, following its redirects and answering its authentication challenges: send, send_,
  handle_request and redirect call each other, and what the servers answer decides how often.
*/
module Redirect {
  import opened Basics

  const REDIRECT_MAX_COUNT := 20
  const AUTHORIZATION_MAX_COUNT := 5

  // The two counters a request carries.
  datatype Request = Request(redirects: nat, authorizations: nat)

  const FRESH := Request(REDIRECT_MAX_COUNT, 0)

  // Does the client follow redirects, and has it credentials for digest authentication?
  datatype Config = Config(follow: bool, digest: bool)

  // What the network makes of one call of send_: no connection, where the answer of a proxy may be handed
  // back instead; no answer, when the peer may have closed the connection; or an answer.  An answer names a
  // usable location or not, and the response that is shown in the end carries a usable challenge or not.
  datatype Reply =
    | Unconnected(proxyAnswers: bool, proxyStatus: int)
    | Unanswered(closed: bool)
    | Answered(status: int, location: bool, challenge: bool)

  // ---- the tree of nested sends ----

  // A call of send: one call of send_, or two when the peer seems to have closed the connection.
  datatype Call = Call(config: Config, first: Attempt, second: Option<Attempt>) {
    // The call of send_ that counts.
    function Last(): Attempt {
      if second.Some? then second.value else first
    }

    function Out(): Outcome {
      Last().out
    }
  }

  // What a call hands back: success, the request as it is then, the status of the response, and whether the
  // peer may have closed the connection.
  datatype Outcome = Outcome(ok: bool, final: Request, status: int, peerClosed: bool)

  // A call of send_, with the sends nested in it.
  datatype Attempt = Attempt(reply: Reply, redirected: Option<Call>, digested: Option<Call>, out: Outcome)

  predicate IsCall(c: Config, req: Request, call: Call)
    decreases call, 0
  {
    && call.config == c && IsAttempt(c, req, call.first)
    && (call.second.Some? <==> call.first.out.peerClosed)
    && (call.second.Some? ==> IsAttempt(c, call.first.out.final, call.second.value))
  }

  predicate Follows(c: Config, reply: Reply) {
    reply.Answered? && 300 < reply.status < 400 && c.follow
  }

  predicate IsChallenge(status: int) {
    status == 401 || status == 407
  }

  // Did the redirect, if there was one to follow, succeed?
  predicate Went(c: Config, a: Attempt) {
    Follows(c, a.reply) ==> a.redirected.Some? && a.redirected.value.Out().ok
  }

  predicate IsAttempt(c: Config, req: Request, a: Attempt)
    decreases a, 0
  {
    match a.reply
    case Unconnected(proxyAnswers, proxyStatus) =>
      a == Attempt(a.reply, None, None, Outcome(proxyAnswers, req, proxyStatus, false))
    case Unanswered(closed) => a == Attempt(a.reply, None, None, Outcome(false, req, -1, closed))
    case Answered(_, location, challenge) =>
      && (a.redirected.Some? <==> Follows(c, a.reply) && req.redirects > 0 && location)
      && (a.redirected.Some? ==> IsRedirected(c, req, a.redirected.value))
      && (a.digested.Some? <==> IsChallenged(c, a.reply, AfterRedirect(c, req, a)))
      && (a.digested.Some? ==>
            IsCall(c, Request(a.out.final.redirects, a.out.final.authorizations + 1), a.digested.value))
      && a.out == Digested(AfterRedirect(c, req, a), a.digested)
  }

  // What would be handed back if there were no challenge.
  function AfterRedirect(c: Config, req: Request, a: Attempt): Outcome
    requires a.reply.Answered?
  {
    if a.redirected.Some? && Went(c, a) then a.redirected.value.Out()
    else Outcome(Went(c, a), req, a.reply.status, a.redirected.Some? && a.redirected.value.Out().peerClosed)
  }

  predicate IsChallenged(c: Config, reply: Reply, shown: Outcome)
    requires reply.Answered?
  {
    IsChallenge(shown.status) && c.digest && reply.challenge && shown.final.authorizations < AUTHORIZATION_MAX_COUNT
  }

  function Digested(shown: Outcome, digested: Option<Call>): Outcome {
    match digested
    case None => shown
    case Some(call) =>
      Outcome(call.Out().ok, shown.final, if call.Out().ok then call.Out().status else shown.status,
              call.Out().peerClosed)
  }

  // A redirect may lead to a new client, which follows redirects, and has no credentials this one lacks.
  predicate IsRedirected(c: Config, req: Request, call: Call)
    requires req.redirects > 0
    decreases call, 1
  {
    && call.config.follow && (call.config.digest ==> c.digest)
    && IsCall(call.config, Request(req.redirects - 1, req.authorizations), call)
  }

  function Depth(call: Call): nat
    decreases call
  {
    1 + Max(AttemptDepth(call.first), if call.second.Some? then AttemptDepth(call.second.value) else 0)
  }

  function AttemptDepth(a: Attempt): nat
    decreases a
  {
    Max(if a.redirected.Some? then Depth(a.redirected.value) else 0,
        if a.digested.Some? then Depth(a.digested.value) else 0)
  }

  // What the network replied, in order.
  function Replies(call: Call): seq<Reply>
    decreases call
  {
    AttemptReplies(call.first) + if call.second.Some? then AttemptReplies(call.second.value) else []
  }

  function AttemptReplies(a: Attempt): seq<Reply>
    decreases a
  {
    [a.reply] + (if a.redirected.Some? then Replies(a.redirected.value) else [])
    + (if a.digested.Some? then Replies(a.digested.value) else [])
  }

  // ---- how deep it goes ----

  // What is left of the two budgets, as far as the client may draw on them.
  function Measure(c: Config, req: Request): nat {
    (if c.follow then req.redirects else 0)
    + if c.digest && req.authorizations < AUTHORIZATION_MAX_COUNT
      then AUTHORIZATION_MAX_COUNT - req.authorizations
      else 0
  }

  predicate IsBelow(final: Request, req: Request) {
    final.redirects <= req.redirects && final.authorizations == req.authorizations
  }

  lemma {:induction false} CallIsBounded(c: Config, req: Request, call: Call)
    requires IsCall(c, req, call)
    ensures IsBelow(call.Out().final, req) && Depth(call) <= Measure(c, req) + 1
    ensures call.Out().ok ==> !call.Out().peerClosed
    decreases call
  {
    AttemptIsBounded(c, req, call.first);
    if call.second.Some? { AttemptIsBounded(c, call.first.out.final, call.second.value); }
  }

  lemma {:induction false} AttemptIsBounded(c: Config, req: Request, a: Attempt)
    requires IsAttempt(c, req, a)
    ensures IsBelow(a.out.final, req) && AttemptDepth(a) <= Measure(c, req)
    ensures a.out.ok ==> !a.out.peerClosed
    decreases a
  {
    if a.redirected.Some? {
      CallIsBounded(a.redirected.value.config, Request(req.redirects - 1, req.authorizations), a.redirected.value);
    }
    if a.digested.Some? {
      CallIsBounded(c, Request(a.out.final.redirects, a.out.final.authorizations + 1), a.digested.value);
    }
  }

  // The bound is attained: servers can make the client go exactly that deep.
  lemma {:induction false} BoundIsAttained(c: Config, req: Request) returns (call: Call)
    ensures IsCall(c, req, call) && Depth(call) == Measure(c, req) + 1
    ensures call.second.None? && call.first.out.ok && IsBelow(call.first.out.final, req)
    ensures call.first.out.status == 200
    decreases Measure(c, req)
  {
    var a := Attempt(Answered(200, false, false), None, None, Outcome(true, req, 200, false));
    if c.follow && req.redirects > 0 {
      var nested := BoundIsAttained(c, Request(req.redirects - 1, req.authorizations));
      a := Attempt(Answered(302, true, false), Some(nested), None,
                   Outcome(true, nested.first.out.final, 200, false));
    } else if c.digest && req.authorizations < AUTHORIZATION_MAX_COUNT {
      var nested := BoundIsAttained(c, Request(req.redirects, req.authorizations + 1));
      a := Attempt(Answered(401, false, true), None, Some(nested), Outcome(true, req, 200, false));
    }
    call := Call(c, a, None);
  }

  // From a fresh request, at most 26 sends are nested, and 26 can be.
  lemma FreshRequestDepth(c: Config, call: Call)
    requires IsCall(c, FRESH, call)
    ensures Depth(call) <= 26
    ensures exists deepest :: IsCall(Config(true, true), FRESH, deepest) && Depth(deepest) == 26
  {
    CallIsBounded(c, FRESH, call);
    var deepest := BoundIsAttained(Config(true, true), FRESH);
  }

  // ---- what is handed back ----

  // Is the response handed back that of a server, not the answer of a proxy to a request to connect?
  predicate IsFromServer(call: Call)
    decreases call
  {
    var a := call.Last();
    && !a.reply.Unconnected?
    && (a.redirected.Some? ==> IsFromServer(a.redirected.value))
    && (a.digested.Some? ==> IsFromServer(a.digested.value))
  }

  // A client that follows redirects never hands back a redirect as a success.
  lemma {:induction false} RedirectsAreFollowed(c: Config, req: Request, call: Call)
    requires IsCall(c, req, call) && c.follow && IsFromServer(call) && call.Out().ok
    ensures !(300 < call.Out().status < 400)
    decreases call
  {
    var a := call.Last();
    var req' := if call.second.Some? then call.first.out.final else req;
    assert IsAttempt(c, req', a);
    if a.digested.Some? {
      RedirectsAreFollowed(c, Request(a.out.final.redirects, a.out.final.authorizations + 1), a.digested.value);
    } else if a.redirected.Some? {
      var nested := a.redirected.value;
      assert IsRedirected(c, req', nested);
      RedirectsAreFollowed(nested.config, Request(req'.redirects - 1, req'.authorizations), nested);
    }
  }

  // One that does not follow them hands back the status that the server sent, unless it is a challenge.
  lemma OthersAreHandedBack(c: Config, req: Request, call: Call)
    requires IsCall(c, req, call) && !c.follow && call.Last().reply.Answered?
    requires !(c.digest && IsChallenge(call.Last().reply.status))
    ensures call.Out().ok && call.Out().status == call.Last().reply.status
    ensures call.Last().redirected.None? && call.Last().digested.None?
  {
  }

  // How often in a row the response was a challenge that was answered.
  function Rounds(call: Call): nat
    decreases call
  {
    if call.Last().digested.Some? then 1 + Rounds(call.Last().digested.value) else 0
  }

  predicate ChallengesParse(call: Call)
    decreases call
  {
    && (call.Last().reply.Answered? ==> call.Last().reply.challenge)
    && (call.Last().digested.Some? ==> ChallengesParse(call.Last().digested.value))
  }

  // With credentials, a challenge is handed back only after it was answered until the budget was used up.
  lemma {:induction false} ChallengesAreAnswered(c: Config, req: Request, call: Call)
    requires IsCall(c, req, call) && c.digest && req.authorizations <= AUTHORIZATION_MAX_COUNT
    requires IsFromServer(call) && ChallengesParse(call) && call.Out().ok && IsChallenge(call.Out().status)
    ensures Rounds(call) == AUTHORIZATION_MAX_COUNT - req.authorizations
    decreases call
  {
    var a := call.Last();
    AttemptIsBounded(c, req, call.first);
    if call.second.Some? { AttemptIsBounded(c, call.first.out.final, call.second.value); }
    if a.digested.Some? {
      ChallengesAreAnswered(c, Request(a.out.final.redirects, a.out.final.authorizations + 1), a.digested.value);
    }
  }

  // A failure behind which the peer may have closed the connection is handed back only after a second try.
  lemma ClosedPeerIsRetried(c: Config, req: Request, call: Call)
    requires IsCall(c, req, call)
    ensures call.Out().peerClosed ==> call.first.out.peerClosed && call.second.Some?
    ensures !call.first.out.peerClosed ==> call.second.None?
  {
  }

  // ---- the program ----

  // All that the network and the servers decide is arbitrary; `log` is what they replied.
  class Network {
    ghost var log: seq<Reply>

    constructor ()
      ensures log == []
    {
      log := [];
    }

    method Connect() returns (failure: Option<Reply>)
      modifies this
      ensures failure.Some? ==> failure.value.Unconnected?
      ensures log == old(log) + if failure.Some? then [failure.value] else []
    {
      var connects, proxyAnswers: bool, proxyStatus: int := *, *, *;
      failure := if connects then None else Some(Unconnected(proxyAnswers, proxyStatus));
      log := log + if failure.Some? then [failure.value] else [];
    }

    method Exchange() returns (reply: Reply)
      modifies this
      ensures !reply.Unconnected? && log == old(log) + [reply]
    {
      var answered, closed, location, challenge: bool := *, *, *, *;
      var status: int := *;
      reply := if answered then Answered(status, location, challenge) else Unanswered(closed);
      log := log + [reply];
    }
  }

  lemma RedirectIsBelow(c: Config, req: Request, call: Call)
    requires req.redirects > 0 && IsRedirected(c, req, call)
    ensures IsBelow(call.Out().final, req)
    ensures call.Out().ok ==> !call.Out().peerClosed
  {
    CallIsBounded(call.config, Request(req.redirects - 1, req.authorizations), call);
  }

  lemma UnansweredIs(c: Config, req: Request, reply: Reply)
    requires reply.Unanswered?
    ensures IsAttempt(c, req, Attempt(reply, None, None, Outcome(false, req, -1, reply.closed)))
  {
  }

  lemma AttemptIs(c: Config, req: Request, a: Attempt, shown: Outcome)
    requires a.reply.Answered? && shown == AfterRedirect(c, req, a)
    requires a.redirected.Some? <==> Follows(c, a.reply) && req.redirects > 0 && a.reply.location
    requires a.redirected.Some? ==> IsRedirected(c, req, a.redirected.value)
    requires a.digested.Some? <==> IsChallenged(c, a.reply, shown)
    requires a.digested.Some? ==>
      IsCall(c, Request(shown.final.redirects, shown.final.authorizations + 1), a.digested.value)
    requires a.out == Digested(shown, a.digested)
    ensures IsAttempt(c, req, a)
  {
    hide IsCall, IsRedirected;
  }

  lemma NothingMore(a: seq<Reply>)
    ensures a + [] == a && [] + a == a
  {
  }

  lemma Joined(a: seq<Reply>, b: seq<Reply>, c: seq<Reply>)
    ensures a + b + c == a + (b + c)
  {
  }

  // Where the source passes an error code along, what matters here is whether it says that the peer could
  // have closed the connection.
  class Client {
    const net: Network
    const config: Config
    var isOpen: bool

    constructor (net: Network, config: Config)
      ensures this.net == net && this.config == config && !isOpen
    {
      this.net, this.config, isOpen := net, config, false;
    }

    method Send(req: Request) returns (out: Outcome, ghost call: Call)
      modifies this, net
      ensures IsCall(config, req, call) && out == call.Out()
      ensures net.log == old(net.log) + Replies(call)
      decreases Measure(config, req), 3
    {
      hide IsAttempt, AttemptReplies;
      ghost var first, second;
      out, first := SendOnce(req, false);
      call := Call(config, first, None);
      AttemptIsBounded(config, req, first);
      NothingMore(AttemptReplies(first));
      if out.peerClosed {
        assert !out.ok;
        out, second := SendOnce(out.final, true);
        call := Call(config, first, Some(second));
        Joined(old(net.log), AttemptReplies(first), AttemptReplies(second));
      }
    }

    // send_.  A new connection clears the error of an earlier attempt.
    method SendOnce(req: Request, peerClosedBefore: bool) returns (out: Outcome, ghost attempt: Attempt)
      requires peerClosedBefore ==> !isOpen
      modifies this, net
      ensures IsAttempt(config, req, attempt) && out == attempt.out
      ensures net.log == old(net.log) + AttemptReplies(attempt)
      ensures !out.ok && !attempt.reply.Unconnected? ==> !isOpen
      ensures out.peerClosed ==> !out.ok && !isOpen
      decreases Measure(config, req), 2
    {
      var alive: bool := *;
      if isOpen && !alive { isOpen := false; }
      if !isOpen {
        var failure := net.Connect();
        if failure.Some? {
          out := Outcome(failure.value.proxyAnswers, req, failure.value.proxyStatus, false);
          return out, Attempt(failure.value, None, None, out);
        }
        isOpen := true;
        NothingMore(net.log);
      }
      out, attempt := HandleRequest(req);
      AttemptIsBounded(config, req, attempt);
      var close: bool := *;
      if close || !out.ok { isOpen := false; }
    }

    method HandleRequest(req: Request) returns (out: Outcome, ghost attempt: Attempt)
      modifies this, net
      ensures IsAttempt(config, req, attempt) && out == attempt.out
      ensures net.log == old(net.log) + AttemptReplies(attempt)
      decreases Measure(config, req), 1
    {
      hide IsCall, IsRedirected, IsAttempt, Replies;
      ghost var redirected: Option<Call>, digested: Option<Call> := None, None;
      var reply := net.Exchange();
      if reply.Unanswered? {
        out := Outcome(false, req, -1, reply.closed);
        UnansweredIs(config, req, reply);
        return out, Attempt(reply, None, None, out);
      }
      NothingMore(net.log);
      var hangsUp: bool := *;
      if hangsUp { isOpen := false; }
      out := Outcome(true, req, reply.status, false);
      if 300 < reply.status < 400 && config.follow {
        out, redirected := FollowRedirect(req, reply);
      }
      ghost var far, shown := net.log, out;
      if redirected.Some? { RedirectIsBelow(config, req, redirected.value); }
      out, digested := AnswerChallenge(req, reply, out);
      attempt := Attempt(reply, redirected, digested, out);
      AttemptIs(config, req, attempt, shown);
      Joined(old(net.log) + [reply], if redirected.Some? then Replies(redirected.value) else [],
             if digested.Some? then Replies(digested.value) else []);
      Joined(old(net.log), [reply], if redirected.Some? then Replies(redirected.value) else []);
    }

    // The challenge of the response shown so far.
    method AnswerChallenge(req: Request, reply: Reply, shown: Outcome)
      returns (out: Outcome, ghost digested: Option<Call>)
      requires reply.Answered? && IsBelow(shown.final, req)
      modifies this, net
      ensures digested.Some? <==> IsChallenged(config, reply, shown)
      ensures digested.Some? ==>
        IsCall(config, Request(shown.final.redirects, shown.final.authorizations + 1), digested.value)
      ensures out == Digested(shown, digested)
      ensures net.log == old(net.log) + if digested.Some? then Replies(digested.value) else []
      decreases Measure(config, req), 0
    {
      out, digested := shown, None;
      NothingMore(net.log);
      if IsChallenge(shown.status) && shown.final.authorizations < AUTHORIZATION_MAX_COUNT {
        if config.digest && reply.challenge {
          ghost var nested;
          var newOut;
          newOut, nested := Send(Request(shown.final.redirects, shown.final.authorizations + 1));
          digested := Some(nested);
          out := Outcome(newOut.ok, shown.final, if newOut.ok then newOut.status else shown.status, newOut.peerClosed);
        }
      }
    }

    method FollowRedirect(req: Request, reply: Reply) returns (out: Outcome, ghost redirected: Option<Call>)
      requires Follows(config, reply)
      modifies this, net
      ensures redirected.Some? <==> req.redirects > 0 && reply.location
      ensures redirected.Some? ==> IsRedirected(config, req, redirected.value)
      ensures out == if redirected.Some? && redirected.value.Out().ok then redirected.value.Out()
                     else Outcome(false, req, reply.status, redirected.Some? && redirected.value.Out().peerClosed)
      ensures net.log == old(net.log) + if redirected.Some? then Replies(redirected.value) else []
      decreases Measure(config, req), 0
    {
      redirected := None;
      out := Outcome(false, req, reply.status, false);
      NothingMore(net.log);
      if req.redirects == 0 { return; }
      if !reply.location { return; }
      var sameHost, keepsCredentials: bool := *, *;
      ghost var call;
      if sameHost {
        out, call := Send(Request(req.redirects - 1, req.authorizations));
      } else {
        var client := new Client(net, Config(true, config.digest && keepsCredentials));
        out, call := client.Send(Request(req.redirects - 1, req.authorizations));
      }
      redirected := Some(call);
      if !out.ok { out := Outcome(false, req, reply.status, out.peerClosed); }
    }
  }
}
