/**
  One client's socket under concurrent send() and stop() calls, as a system of atomic steps.  send() holds
  a recursive mutex, so one thread at a time has requests going, one inside the other when a request is
  redirected or authenticated; stop() may come from any thread at any moment.
*/
module ClientSocket {
  import opened Basics

  // A call of send(): outside send_ (before it, or after it returned), or with a request in flight.
  datatype Phase = Outside | InFlight

  // `owner` holds the request mutex; `calls` are its send() calls, the innermost last.  `shut` says that
  // the open socket has been shut down, `sockets` how many sockets were ever opened.
  datatype Client = Client(
    owner: Option<nat>,
    calls: seq<Phase>,
    inFlight: int,
    fromThread: Option<nat>,
    shouldClose: bool,
    sock: Option<nat>,
    shut: bool,
    sockets: nat)

  datatype Step =
    | Begin(t: nat)                                    // send() takes the request mutex
    | Enter(t: nat, alive: bool, connects: bool)       // first critical section of send_
    | CloseInside(t: nat)                              // the response said "Connection: close"
    | Leave(t: nat, ret: bool, closeConnection: bool)  // the scope exit of send_
    | End(t: nat)                                      // send() returns
    | Stop(t: nat)

  function Initial(): Client {
    Client(None, [], 0, None, false, None, false, 0)
  }

  predicate Innermost(c: Client, t: nat, phase: Phase) {
    c.owner == Some(t) && c.calls != [] && c.calls[|c.calls| - 1] == phase
  }

  predicate Enabled(c: Client, step: Step) {
    match step
    case Begin(t) => c.owner == None || Innermost(c, t, InFlight)
    case Enter(t, _, _) => Innermost(c, t, Outside)
    case CloseInside(t) => Innermost(c, t, InFlight)
    case Leave(t, _, _) => Innermost(c, t, InFlight)
    case End(t) => Innermost(c, t, Outside)
    case Stop(_) => true
  }

  // The assertion at the top of close_socket.
  predicate MayClose(c: Client, t: nat) {
    c.inFlight == 0 || c.fromThread == Some(t)
  }

  function Closed(c: Client): Client {
    c.(sock := None, shut := false)
  }

  function WithPhase(c: Client, phase: Phase): Client
    requires c.calls != []
  {
    c.(calls := c.calls[|c.calls| - 1 := phase])
  }

  // Does the first critical section find, or make, a usable socket?
  predicate Connects(c: Client, step: Step)
    requires step.Enter?
  {
    (c.sock.Some? && step.alive) || step.connects
  }

  function After(c: Client, step: Step): Client
    requires Enabled(c, step)
  {
    match step
    case Begin(t) => c.(owner := Some(t), calls := c.calls + [Outside])
    case Enter(t, alive, connects) =>
      var c1 := c.(shouldClose := false);
      var isAlive := c1.sock.Some? && alive;
      var c2 := if c1.sock.Some? && !isAlive then Closed(c1) else c1;
      if !isAlive && !connects then c2
      else
        var c3 := if isAlive then c2 else c2.(sock := Some(c2.sockets), shut := false, sockets := c2.sockets + 1);
        WithPhase(c3.(inFlight := c3.inFlight + 1, fromThread := Some(t)), InFlight)
    case CloseInside(t) => Closed(c)
    case Leave(t, ret, closeConnection) =>
      var c1 := WithPhase(c.(inFlight := c.inFlight - 1), Outside);
      var c2 := if c1.inFlight <= 0 then c1.(fromThread := None) else c1;
      if c2.shouldClose || closeConnection || !ret then Closed(c2) else c2
    case End(t) =>
      var calls := c.calls[..|c.calls| - 1];
      c.(calls := calls, owner := if calls == [] then None else c.owner)
    case Stop(t) =>
      if c.inFlight > 0 then c.(shut := c.sock.Some?, shouldClose := true) else Closed(c)
  }

  // Every assertion that the step runs into: in close_socket whenever it closes, with the counters as
  // they are at that moment, and before the counter is raised.
  ghost predicate AssertionsHold(c: Client, step: Step)
    requires Enabled(c, step)
  {
    match step
    case Enter(t, alive, _) =>
      && (c.sock.Some? && !alive ==> MayClose(c, t))
      && (c.inFlight > 1 ==> c.fromThread == Some(t))
    case CloseInside(t) => MayClose(c, t)
    case Leave(t, _, _) =>
      && (c.inFlight - 1 <= 0 ==> c.inFlight - 1 == 0)
      && MayClose(c.(inFlight := c.inFlight - 1, fromThread := if c.inFlight - 1 <= 0 then None else c.fromThread), t)
    case Stop(t) => c.inFlight > 0 || MayClose(c, t)
    case Begin(_) => true
    case End(_) => true
  }

  function Active(calls: seq<Phase>): nat {
    if calls == [] then 0 else Active(calls[..|calls| - 1]) + if calls[|calls| - 1] == InFlight then 1 else 0
  }

  // The counter is the number of active frames, all of the thread that holds the request mutex and is
  // recorded; only the innermost send() can be outside its frame.
  ghost predicate Consistent(c: Client) {
    && (c.owner == None <==> c.calls == [])
    && c.inFlight == Active(c.calls)
    && (forall i :: 0 <= i < |c.calls| - 1 ==> c.calls[i] == InFlight)
    && c.fromThread == (if c.inFlight > 0 then c.owner else None)
    && (c.sock.Some? ==> c.sock.value < c.sockets)
  }

  ghost predicate IsRun(c: Client, steps: seq<Step>)
    decreases |steps|
  {
    steps == [] || (Enabled(c, steps[0]) && IsRun(After(c, steps[0]), steps[1..]))
  }

  ghost function RunTo(c: Client, steps: seq<Step>): Client
    requires IsRun(c, steps)
    decreases |steps|
  {
    if steps == [] then c else RunTo(After(c, steps[0]), steps[1..])
  }

  lemma ActiveLast(calls: seq<Phase>, phase: Phase)
    requires calls != []
    ensures Active(calls[|calls| - 1 := phase]) == Active(calls[..|calls| - 1]) + if phase == InFlight then 1 else 0
    ensures Active(calls + [phase]) == Active(calls) + if phase == InFlight then 1 else 0
  {
    var n := |calls| - 1;
    assert calls[n := phase][..n] == calls[..n];
    assert (calls + [phase])[..|calls|] == calls;
  }

  // The innermost call is outside its frame exactly when the frames are one fewer than the calls.
  lemma {:induction false} ActiveAll(calls: seq<Phase>)
    requires forall i :: 0 <= i < |calls| - 1 ==> calls[i] == InFlight
    ensures Active(calls) == |calls| - if calls != [] && calls[|calls| - 1] == Outside then 1 else 0
    decreases |calls|
  {
    if calls != [] {
      var init := calls[..|calls| - 1];
      if init != [] { assert init[|init| - 1] == InFlight; }
      ActiveAll(init);
    }
  }

  lemma CounterOf(c: Client)
    requires Consistent(c) && c.calls != []
    ensures c.inFlight == |c.calls| - if c.calls[|c.calls| - 1] == Outside then 1 else 0
    ensures forall phase {:trigger c.calls[|c.calls| - 1 := phase]} ::
      Active(c.calls[|c.calls| - 1 := phase]) == |c.calls| - if phase == Outside then 1 else 0
    ensures forall phase {:trigger c.calls + [phase]} ::
      Active(c.calls + [phase]) == c.inFlight + if phase == InFlight then 1 else 0
  {
    ActiveAll(c.calls);
    forall phase
      ensures Active(c.calls[|c.calls| - 1 := phase]) == |c.calls| - if phase == Outside then 1 else 0
      ensures Active(c.calls + [phase]) == c.inFlight + if phase == InFlight then 1 else 0
    {
      ActiveAll(c.calls[|c.calls| - 1 := phase]);
      ActiveLast(c.calls, phase);
    }
  }

  lemma ConsistentAtFrames(c: Client, step: Step)
    requires Consistent(c) && Enabled(c, step) && (step.Enter? || step.Leave?)
    ensures Consistent(After(c, step)) && AssertionsHold(c, step)
  {
    CounterOf(c);
    hide Active;
  }

  lemma ConsistentAtCalls(c: Client, step: Step)
    requires Consistent(c) && Enabled(c, step) && (step.Begin? || step.End?)
    ensures Consistent(After(c, step)) && AssertionsHold(c, step)
  {
    hide Active;
    var c' := After(c, step);
    ActiveAll(c.calls);
    if step.Begin? {
      ActiveLastCall(c.calls);
    } else {
      EndedCall(c.calls);
    }
  }

  lemma ActiveLastCall(calls: seq<Phase>)
    ensures Active(calls + [Outside]) == Active(calls)
  {
    assert (calls + [Outside])[..|calls|] == calls;
  }

  lemma EndedCall(calls: seq<Phase>)
    ensures calls != [] && calls[|calls| - 1] == Outside ==> Active(calls[..|calls| - 1]) == Active(calls)
  {
  }

  lemma ConsistentStep(c: Client, step: Step)
    requires Consistent(c) && Enabled(c, step)
    ensures Consistent(After(c, step)) && AssertionsHold(c, step)
  {
    if step.Enter? || step.Leave? {
      ConsistentAtFrames(c, step);
    } else if step.Begin? || step.End? {
      ConsistentAtCalls(c, step);
    } else {
      ActiveAll(c.calls);
    }
  }

  lemma {:induction false} ConsistentRun(c: Client, steps: seq<Step>)
    requires Consistent(c) && IsRun(c, steps)
    ensures Consistent(RunTo(c, steps))
    decreases |steps|
  {
    if steps != [] {
      ConsistentStep(c, steps[0]);
      ConsistentRun(After(c, steps[0]), steps[1..]);
    }
  }

  function Actor(step: Step): nat {
    step.t
  }

  // Over every interleaving: the in-flight counter counts the active frames, all on the recorded thread,
  // no assertion fails, and a step that ends the life of a socket is taken with nothing in flight, or by
  // the very thread whose requests are.
  lemma SocketProtocol(steps: seq<Step>, next: Step)
    requires IsRun(Initial(), steps) && Enabled(RunTo(Initial(), steps), next)
    ensures var c := RunTo(Initial(), steps);
      && c.inFlight == Active(c.calls) && (c.inFlight > 0 ==> c.fromThread == c.owner && c.owner.Some?)
      && AssertionsHold(c, next)
      && (c.sock.Some? && After(c, next).sock != c.sock ==> c.inFlight == 0 || c.owner == Some(Actor(next)))
  {
    ConsistentRun(Initial(), steps);
    ConsistentStep(RunTo(Initial(), steps), next);
  }

  // ---- what becomes of the socket after a request ----

  // Without another send_ a closed socket stays closed, and one that was shut down stays so until closed.
  lemma {:induction false} NobodyReopens(c: Client, steps: seq<Step>)
    requires Consistent(c) && IsRun(c, steps) && NoEnter(steps)
    ensures c.sock == None ==> RunTo(c, steps).sock == None
    ensures c.sock.Some? ==>
      RunTo(c, steps).sock == None || (RunTo(c, steps).sock == c.sock && (c.shut ==> RunTo(c, steps).shut))
    decreases |steps|
  {
    if steps != [] {
      ConsistentStep(c, steps[0]);
      NobodyReopens(After(c, steps[0]), steps[1..]);
    }
  }

  // In every reachable state, a request that fails, or whose connection is not to be kept, leaves the socket
  // closed until another send_ is entered; a stop while it is in flight leaves it shut down or closed.
  lemma FailedRequestCloses(before: seq<Step>, step: Step, after: seq<Step>)
    requires IsRun(Initial(), before) && Enabled(RunTo(Initial(), before), step)
    requires IsRun(After(RunTo(Initial(), before), step), after) && NoEnter(after)
    ensures var c' := RunTo(After(RunTo(Initial(), before), step), after);
      && (step.Leave? && (!step.ret || step.closeConnection) ==> c'.sock == None)
      && (step.CloseInside? ==> c'.sock == None)
      && (step.Stop? ==> c'.sock == None || c'.shut)
  {
    ConsistentRun(Initial(), before);
    var c := RunTo(Initial(), before);
    ConsistentStep(c, step);
    NobodyReopens(After(c, step), after);
  }

  // One request after another: the second gets the socket of the first, if the first succeeded, kept it, was
  // not asked to stop, and the peer is still there; or else a new one, if it connects.
  lemma NextRequest(c: Client, t: nat, ret: bool, closeConnection: bool, u: nat, alive: bool, connects: bool)
    requires Consistent(c) && Innermost(c, t, InFlight) && |c.calls| == 1
    ensures var steps := [Leave(t, ret, closeConnection), End(t), Begin(u), Enter(u, alive, connects)];
      && IsRun(c, steps)
      && var c' := RunTo(c, steps);
         if ret && !closeConnection && !c.shouldClose && c.sock.Some? && alive
         then c'.sock == c.sock && c'.shut == c.shut && c'.sockets == c.sockets && c'.inFlight == 1
         else if connects
         then c'.sock == Some(c.sockets) && !c'.shut && c'.sockets == c.sockets + 1 && c'.inFlight == 1
         else c'.sock == None && c'.inFlight == 0
  {
    var s1, s2, s3, s4 := Leave(t, ret, closeConnection), End(t), Begin(u), Enter(u, alive, connects);
    ActiveAll(c.calls);
    assert c.calls == [InFlight];
    var c1 := AfterLeaving(c, t, ret, closeConnection);
    var c3 := BetweenRequests(c1, t, u);
    RunOfFour(c, s1, s2, s3, s4);
  }

  lemma AfterLeaving(c: Client, t: nat, ret: bool, closeConnection: bool) returns (c1: Client)
    requires c.owner == Some(t) && c.calls == [InFlight] && c.inFlight == 1
    ensures Enabled(c, Leave(t, ret, closeConnection)) && c1 == After(c, Leave(t, ret, closeConnection))
    ensures c1.owner == Some(t) && c1.calls == [Outside] && c1.inFlight == 0 && c1.sockets == c.sockets
    ensures if ret && !closeConnection && !c.shouldClose then c1.sock == c.sock && c1.shut == c.shut
            else c1.sock == None
  {
    c1 := After(c, Leave(t, ret, closeConnection));
    assert c.calls[0 := Outside] == [Outside];
  }

  lemma BetweenRequests(c: Client, t: nat, u: nat) returns (c2: Client)
    requires c.owner == Some(t) && c.calls == [Outside]
    ensures Enabled(c, End(t)) && Enabled(After(c, End(t)), Begin(u)) && c2 == After(After(c, End(t)), Begin(u))
    ensures c2 == c.(owner := Some(u))
  {
    c2 := After(After(c, End(t)), Begin(u));
    assert c.calls[..0] == [] && [] + [Outside] == [Outside];
  }

  lemma RunOfFour(c: Client, s1: Step, s2: Step, s3: Step, s4: Step)
    requires Enabled(c, s1) && Enabled(After(c, s1), s2) && Enabled(After(After(c, s1), s2), s3)
    requires Enabled(After(After(After(c, s1), s2), s3), s4)
    ensures IsRun(c, [s1, s2, s3, s4])
    ensures RunTo(c, [s1, s2, s3, s4]) == After(After(After(After(c, s1), s2), s3), s4)
  {
    hide Enabled, After;
    var c1, c2, c3 := After(c, s1), After(After(c, s1), s2), After(After(After(c, s1), s2), s3);
    assert [s1, s2, s3, s4][1..] == [s2, s3, s4] && [s2, s3, s4][1..] == [s3, s4];
    assert [s3, s4][1..] == [s4] && [s4][1..] == [];
    assert IsRun(After(c3, s4), []) && IsRun(c3, [s4]) && IsRun(c2, [s3, s4]) && IsRun(c1, [s2, s3, s4]);
    assert RunTo(c3, [s4]) == After(c3, s4);
    assert RunTo(c1, [s2, s3, s4]) == RunTo(c2, [s3, s4]) == RunTo(c3, [s4]);
  }

  // ---- what becomes of a stop ----

  ghost predicate NoEnter(steps: seq<Step>) {
    forall i :: 0 <= i < |steps| ==> !steps[i].Enter?
  }

  lemma {:induction false} StopHolds(c: Client, steps: seq<Step>)
    requires Consistent(c) && IsRun(c, steps) && NoEnter(steps)
    requires c.shouldClose && (c.inFlight == 0 ==> c.sock == None)
    ensures var c' := RunTo(c, steps);
      c'.shouldClose && (c'.inFlight == 0 ==> c'.sock == None)
    decreases |steps|
  {
    if steps != [] {
      ConsistentStep(c, steps[0]);
      StopHolds(After(c, steps[0]), steps[1..]);
    }
  }

  // A stop while requests are in flight leaves the socket closed once they have ended, unless another
  // send_ was entered in the meantime.
  lemma StopClosesAfterRequests(before: seq<Step>, t: nat, after: seq<Step>)
    requires IsRun(Initial(), before) && RunTo(Initial(), before).inFlight > 0
    requires IsRun(After(RunTo(Initial(), before), Stop(t)), after) && NoEnter(after)
    ensures var c' := RunTo(After(RunTo(Initial(), before), Stop(t)), after);
      c'.inFlight == 0 ==> c'.sock == None
  {
    ConsistentRun(Initial(), before);
    var c := RunTo(Initial(), before);
    ConsistentStep(c, Stop(t));
    StopHolds(After(c, Stop(t)), after);
  }

  // Steps that give no other reason to close: requests succeed, connections are kept, nobody stops again.
  predicate IsQuiet(step: Step) {
    match step
    case Leave(_, ret, closeConnection) => ret && !closeConnection
    case CloseInside(_) => false
    case Stop(_) => false
    case _ => true
  }

  // Was the last send_ entered, if any, unable to get a socket?
  ghost predicate LastEnterFailed(c: Client, steps: seq<Step>, failed: bool)
    requires IsRun(c, steps)
    decreases |steps|
  {
    if steps == [] then failed
    else LastEnterFailed(After(c, steps[0]), steps[1..], if steps[0].Enter? then !Connects(c, steps[0]) else failed)
  }

  lemma {:induction false} QuietOutcome(c: Client, steps: seq<Step>, failed: bool)
    requires Consistent(c) && IsRun(c, steps) && forall i :: 0 <= i < |steps| ==> IsQuiet(steps[i])
    requires if failed then c.sock == None || (c.shouldClose && c.inFlight > 0) else c.sock.Some? && !c.shouldClose
    ensures var c' := RunTo(c, steps);
      if LastEnterFailed(c, steps, failed) then c'.sock == None || (c'.shouldClose && c'.inFlight > 0)
      else c'.sock.Some? && !c'.shouldClose
    decreases |steps|
  {
    if steps != [] {
      ConsistentStep(c, steps[0]);
      var next := if steps[0].Enter? then !Connects(c, steps[0]) else failed;
      QuietOutcome(After(c, steps[0]), steps[1..], next);
    }
  }

  // Exactly when a stop is forgotten: with no other reason to close, the socket ends up open if and only
  // if the last send_ entered after the stop got one, for entering clears the request to close.
  lemma StopForgottenIff(before: seq<Step>, t: nat, after: seq<Step>)
    requires IsRun(Initial(), before) && RunTo(Initial(), before).inFlight > 0
    requires var c := After(RunTo(Initial(), before), Stop(t));
      IsRun(c, after) && (forall i :: 0 <= i < |after| ==> IsQuiet(after[i])) && RunTo(c, after).inFlight == 0
    ensures var c := After(RunTo(Initial(), before), Stop(t));
      RunTo(c, after).sock == None <==> LastEnterFailed(c, after, true)
  {
    ConsistentRun(Initial(), before);
    var c := RunTo(Initial(), before);
    ConsistentStep(c, Stop(t));
    QuietOutcome(After(c, Stop(t)), after, true);
  }

  // A redirected request shows it: the nested send_ reconnects, and both requests end with the socket open.
  lemma NestedSendForgetsStop()
    ensures var c := After(After(Initial(), Begin(1)), Enter(1, false, true));
      var stopped := After(c, Stop(2));
      var nested := After(After(stopped, Begin(1)), Enter(1, false, true));
      var ended := After(After(After(nested, Leave(1, true, false)), End(1)), Leave(1, true, false));
      c.inFlight == 1 && stopped.shouldClose && ended.inFlight == 0 && ended.sock.Some?
  {
  }

  // ---- the critical sections themselves ----

  class ClientImpl {
    var socket_: Option<nat>
    var socket_requests_in_flight_: int
    var socket_requests_are_from_thread_: Option<nat>
    var socket_should_be_closed_when_request_is_done_: bool
    // Which threads are where, and what the operating system knows of the socket.
    var owner: Option<nat>
    var calls: seq<Phase>
    var shut: bool
    var sockets: nat

    ghost function View(): Client
      reads this
    {
      Client(owner, calls, socket_requests_in_flight_, socket_requests_are_from_thread_,
             socket_should_be_closed_when_request_is_done_, socket_, shut, sockets)
    }

    method CloseSocket(t: nat)
      requires MayClose(View(), t)
      modifies this`socket_, this`shut
      ensures View() == Closed(old(View()))
    {
      socket_ := None;
      shut := false;
    }

    method EnterSection(t: nat, alive: bool, connects: bool) returns (entered: bool)
      requires Consistent(View()) && Enabled(View(), Enter(t, alive, connects))
      modifies this
      ensures View() == After(old(View()), Enter(t, alive, connects))
      ensures entered == Connects(old(View()), Enter(t, alive, connects))
    {
      ConsistentStep(View(), Enter(t, alive, connects));
      socket_should_be_closed_when_request_is_done_ := false;
      var isAlive := false;
      if socket_.Some? {
        isAlive := alive;
        if !isAlive { CloseSocket(t); }
      }
      if !isAlive {
        if !connects { return false; }
        socket_, shut, sockets := Some(sockets), false, sockets + 1;
      }
      socket_requests_in_flight_ := socket_requests_in_flight_ + 1;
      socket_requests_are_from_thread_ := Some(t);
      calls := calls[|calls| - 1 := InFlight];
      return true;
    }

    method LeaveSection(t: nat, ret: bool, closeConnection: bool)
      requires Consistent(View()) && Enabled(View(), Leave(t, ret, closeConnection))
      modifies this
      ensures View() == After(old(View()), Leave(t, ret, closeConnection))
      ensures !ret || closeConnection || old(socket_should_be_closed_when_request_is_done_) ==> socket_ == None
      ensures ret && !closeConnection && !old(socket_should_be_closed_when_request_is_done_) ==>
        socket_ == old(socket_) && shut == old(shut)
    {
      ConsistentStep(View(), Leave(t, ret, closeConnection));
      socket_requests_in_flight_ := socket_requests_in_flight_ - 1;
      if socket_requests_in_flight_ <= 0 {
        assert socket_requests_in_flight_ == 0;
        socket_requests_are_from_thread_ := None;
      }
      calls := calls[|calls| - 1 := Outside];
      if socket_should_be_closed_when_request_is_done_ || closeConnection || !ret {
        CloseSocket(t);
      }
    }

    method StopSection(t: nat)
      requires Consistent(View())
      modifies this
      ensures View() == After(old(View()), Stop(t))
    {
      ActiveAll(calls);
      if socket_requests_in_flight_ > 0 {
        shut := socket_.Some?;
        socket_should_be_closed_when_request_is_done_ := true;
        return;
      }
      CloseSocket(t);
    }
  }
}
