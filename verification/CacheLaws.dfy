/**
  What a user of the expiring cache can rely on: the answers to later calls, told from the calls and the
  ticks alone.
*/
module CacheLaws {
  import opened Basics
  import opened TimingWheel
  import opened D = DeadlineCache
  import opened CacheRuns

  // The answer to a call after others.
  ghost function Asked<K, V>(cfg: Config<V>, ops: seq<Op<K, V>>, query: Op<K, V>): Answer<V>
    requires Sane(cfg)
  {
    AnswersLength(cfg, Empty(), ops + [query]);
    Answers(cfg, Empty(), ops + [query])[|ops|]
  }

  lemma {:induction false} AnswersLength<K, V>(cfg: Config<V>, c: Cache<K, V>, ops: seq<Op<K, V>>)
    requires Sane(cfg)
    ensures |Answers(cfg, c, ops)| == |ops|
    decreases |ops|
  {
    if ops != [] { AnswersLength(cfg, Apply(cfg, c, ops[0]), ops[1..]); }
  }

  // All three lookups find this value, or none.
  ghost predicate Serves<K, V>(cfg: Config<V>, ops: seq<Op<K, V>>, key: K, found: Option<V>)
    requires Sane(cfg)
  {
    && Asked(cfg, ops, OpFind(key)) == Flag(found.Some?)
    && Asked(cfg, ops, OpIndex(key)) == Value(if found.Some? then found.value else cfg.dflt)
    && Asked(cfg, ops, OpFetch(key)) == Fetched(found)
  }

  function Ticks<K, V>(ops: seq<Op<K, V>>): nat {
    if ops == [] then 0 else (if ops[0].OpTick? then 1 else 0) + Ticks(ops[1..])
  }

  ghost predicate LeavesAlone<K(!new), V>(ops: seq<Op<K, V>>, key: K) {
    forall op :: op in ops ==> !Mentions(op, key)
  }

  // ---- runs and answers ----

  lemma {:induction false} RunConcat<K, V>(cfg: Config<V>, c: Cache<K, V>, a: seq<Op<K, V>>, b: seq<Op<K, V>>)
    requires Sane(cfg)
    ensures Run(cfg, c, a + b) == Run(cfg, Run(cfg, c, a), b)
    decreases |a|
  {
    hide Apply;
    if a == [] {
      assert a + b == b;
    } else {
      assert (a + b)[1..] == a[1..] + b && (a + b)[0] == a[0];
      RunConcat(cfg, Apply(cfg, c, a[0]), a[1..], b);
    }
  }

  lemma RunOne<K, V>(cfg: Config<V>, c: Cache<K, V>, op: Op<K, V>)
    requires Sane(cfg)
    ensures Run(cfg, c, [op]) == Apply(cfg, c, op)
  {
    hide Apply;
    var ops := [op];
    assert ops[1..] == [];
    assert Run(cfg, Apply(cfg, c, op), []) == Apply(cfg, c, op);
  }

  lemma {:induction false} LastAnswer<K, V>(cfg: Config<V>, c: Cache<K, V>, ops: seq<Op<K, V>>, query: Op<K, V>)
    requires Sane(cfg)
    ensures var answers := Answers(cfg, c, ops + [query]);
      |answers| == |ops| + 1 && answers[|ops|] == AnswerOf(cfg, Run(cfg, c, ops), query)
    decreases |ops|
  {
    hide Apply, AnswerOf;
    var all := ops + [query];
    if ops == [] {
      assert all == [query] && all[1..] == [];
      assert Answers(cfg, Apply(cfg, c, query), []) == [];
    } else {
      assert all[1..] == ops[1..] + [query] && all[0] == ops[0];
      LastAnswer(cfg, Apply(cfg, c, ops[0]), ops[1..], query);
    }
  }

  lemma AskedIs<K, V>(cfg: Config<V>, ops: seq<Op<K, V>>, query: Op<K, V>)
    requires Sane(cfg)
    ensures Asked(cfg, ops, query) == AnswerOf(cfg, Run(cfg, Empty(), ops), query)
  {
    LastAnswer(cfg, Empty(), ops, query);
  }

  // What the deadline map holds under a key.
  ghost function Stored<K, V>(c: Cache<K, V>, key: K): Option<V> {
    if key in c.items then Some(c.items[key].value) else None
  }

  lemma ServesStored<K, V>(cfg: Config<V>, ops: seq<Op<K, V>>, key: K)
    requires Sane(cfg)
    ensures Serves(cfg, ops, key, Stored(Run(cfg, Empty(), ops), key))
    ensures Asked(cfg, ops, OpFind(key)) == Flag(key in Run(cfg, Empty(), ops).items)
  {
    hide Asked, Run;
    AskedIs(cfg, ops, OpFind(key));
    AskedIs(cfg, ops, OpIndex(key));
    AskedIs(cfg, ops, OpFetch(key));
  }

  lemma CallKeepsNow<K(!new), V>(cfg: Config<V>, c: Cache<K, V>, op: Op<K, V>)
    requires Sane(cfg)
    ensures Apply(cfg, c, op).now == c.now + if op.OpTick? then 1 else 0
  {
    hide Deadline, Note;
    if !op.OpTick? { CallFrame(cfg, c, op); }
  }

  lemma {:induction false} RunTicks<K(!new), V>(cfg: Config<V>, c: Cache<K, V>, ops: seq<Op<K, V>>)
    requires Sane(cfg)
    ensures Run(cfg, c, ops).now == c.now + Ticks(ops)
    decreases |ops|
  {
    hide Apply;
    if ops != [] {
      CallKeepsNow(cfg, c, ops[0]);
      RunTicks(cfg, Apply(cfg, c, ops[0]), ops[1..]);
    }
  }

  // ---- one key, counted down ----

  // A key as a user sees it: its value, and for how many more ticks, unless its timeout is 0.
  datatype Life<V> = Absent | Present(value: V, timeout: nat, left: nat)

  function Extended<V>(l: Life<V>, timeout: nat): Life<V> {
    if l.Absent? || l.timeout == 0 || timeout == 0 then l else l.(left := Max(l.left, timeout + 1))
  }

  function Next<K(==), V>(dflt: V, l: Life<V>, op: Op<K, V>, key: K): Life<V> {
    if op.OpTick? then
      if l.Absent? || l.timeout == 0 then l else if l.left <= 1 then Absent else l.(left := l.left - 1)
    else if !Mentions(op, key) then l
    else
      match op
      case OpInsert(_, value, timeout, _) =>
        if l.Absent? then Present(value, timeout, timeout + 1) else Extended(l, timeout)
      case OpModify(_, handler, timeout) =>
        if l.Absent? then Present(handler(dflt), timeout, timeout + 1)
        else Extended(l.(value := handler(l.value)), l.timeout)
      case OpErase(_) => Absent
      case _ => if l.Absent? then l else Extended(l, l.timeout)
  }

  function LifeAfter<K(==), V>(dflt: V, ops: seq<Op<K, V>>, key: K): Life<V>
    decreases |ops|
  {
    if ops == [] then Absent else Next(dflt, LifeAfter(dflt, ops[..|ops| - 1], key), ops[|ops| - 1], key)
  }

  // The timeouts that the wheels meet to the tick.
  ghost predicate InReach<K, V>(cfg: Config<V>, op: Op<K, V>) {
    && (op.OpInsert? ==> op.timeout + 1 <= Pow(cfg.b, cfg.w))
    && (op.OpModify? ==> op.timeout + 1 <= Pow(cfg.b, cfg.w))
  }

  ghost predicate Lives<K, V>(cfg: Config<V>, c: Cache<K, V>, key: K, l: Life<V>) {
    if l.Absent? then key !in c.items
    else
      && key in c.items && c.items[key].value == l.value && c.items[key].timeout == l.timeout
      && l.timeout + 1 <= Pow(cfg.b, cfg.w)
      && (l.timeout > 0 ==> l.left > 0 && c.items[key].deadline == c.now + l.left)
  }

  lemma DeadlineIsExact<V>(cfg: Config<V>, now: nat, timeout: nat)
    requires Sane(cfg) && timeout + 1 <= Pow(cfg.b, cfg.w)
    ensures Deadline(cfg, now, timeout) == now + timeout + 1
  {
    ExactInEveryPhaseIff(timeout + 1, cfg.w, cfg.b);
  }

  lemma TickCountsDown<K(!new), V>(cfg: Config<V>, c: Cache<K, V>, op: Op<K, V>, key: K, l: Life<V>)
    requires Sane(cfg) && op.OpTick? && Lives(cfg, c, key, l)
    ensures Lives(cfg, Apply(cfg, c, op), key, Next(cfg.dflt, l, op, key))
  {
    hide Pow;
  }

  lemma CallCounts<K(!new), V>(cfg: Config<V>, c: Cache<K, V>, op: Op<K, V>, key: K, l: Life<V>)
    requires Sane(cfg) && !op.OpTick? && Mentions(op, key) && InReach(cfg, op) && Lives(cfg, c, key, l)
    ensures Lives(cfg, Apply(cfg, c, op), key, Next(cfg.dflt, l, op, key))
  {
    if op.OpInsert? || op.OpModify? { DeadlineIsExact(cfg, c.now, op.timeout); }
    if l.Present? { DeadlineIsExact(cfg, c.now, l.timeout); }
    hide Pow, Deadline;
  }

  lemma LivesStep<K(!new), V>(cfg: Config<V>, c: Cache<K, V>, op: Op<K, V>, key: K, l: Life<V>)
    requires Sane(cfg) && InReach(cfg, op) && Lives(cfg, c, key, l)
    ensures Lives(cfg, Apply(cfg, c, op), key, Next(cfg.dflt, l, op, key))
  {
    hide Lives, Next;
    if op.OpTick? {
      TickCountsDown(cfg, c, op, key, l);
    } else if Mentions(op, key) {
      CallCounts(cfg, c, op, key, l);
    } else {
      UntouchedLives(cfg, c, op, key, l);
    }
  }

  lemma UntouchedLives<K(!new), V>(cfg: Config<V>, c: Cache<K, V>, op: Op<K, V>, key: K, l: Life<V>)
    requires Sane(cfg) && !op.OpTick? && !Mentions(op, key) && Lives(cfg, c, key, l)
    ensures Lives(cfg, Apply(cfg, c, op), key, Next(cfg.dflt, l, op, key))
  {
    UntouchedFrame(cfg, c, op, key);
    hide Apply, Mentions, Pow;
  }

  lemma {:induction false} LivesRun<K(!new), V>(cfg: Config<V>, ops: seq<Op<K, V>>, key: K)
    requires Sane(cfg) && forall op :: op in ops ==> InReach(cfg, op)
    ensures Lives(cfg, Run(cfg, Empty(), ops), key, LifeAfter(cfg.dflt, ops, key))
    decreases |ops|
  {
    hide Apply, Next, InReach;
    if ops != [] {
      var before, op := ops[..|ops| - 1], ops[|ops| - 1];
      assert ops == before + [op];
      LivesRun(cfg, before, key);
      RunConcat(cfg, Empty(), before, [op]);
      RunOne(cfg, Run(cfg, Empty(), before), op);
      LivesStep(cfg, Run(cfg, Empty(), before), op, key, LifeAfter(cfg.dflt, before, key));
    }
  }

  // Whatever calls and ticks came before, with timeouts in reach of the wheels, a lookup is answered from
  // the countdown of its key alone.
  lemma LookupsFollowCountdown<K(!new), V>(cfg: Config<V>, ops: seq<Op<K, V>>, key: K)
    requires Sane(cfg) && forall op :: op in ops ==> InReach(cfg, op)
    ensures var l := LifeAfter(cfg.dflt, ops, key);
      Serves(cfg, ops, key, if l.Present? then Some(l.value) else None)
  {
    hide Serves, Run, LifeAfter;
    LivesRun(cfg, ops, key);
    ServesStored(cfg, ops, key);
  }

  // ---- the life of a key that is left alone ----

  lemma LeftAlone<K(!new), V>(cfg: Config<V>, before: seq<Op<K, V>>, after: seq<Op<K, V>>, key: K)
    requires Sane(cfg) && LeavesAlone(after, key)
    requires var c := Run(cfg, Empty(), before);
      key in c.items && (c.items[key].timeout > 0 ==> c.items[key].deadline > c.now)
    ensures var it := Run(cfg, Empty(), before).items[key];
      Serves(cfg, before + after, key,
        if it.timeout == 0 || Run(cfg, Empty(), before).now + Ticks(after) < it.deadline then Some(it.value) else None)
  {
    hide Run, Serves, Ticks;
    var c := Run(cfg, Empty(), before);
    RunConcat(cfg, Empty(), before, after);
    RunTicks(cfg, c, after);
    UntouchedKeyLivesToItsDeadline(cfg, c, after, key);
    ServesStored(cfg, before + after, key);
  }

  // Everything before, one call, and what follows it.
  function Then<K, V>(before: seq<Op<K, V>>, op: Op<K, V>, after: seq<Op<K, V>>): seq<Op<K, V>> {
    before + [op] + after
  }

  lemma RunThen<K, V>(cfg: Config<V>, before: seq<Op<K, V>>, op: Op<K, V>)
    requires Sane(cfg)
    ensures Run(cfg, Empty(), before + [op]) == Apply(cfg, Run(cfg, Empty(), before), op)
  {
    hide Apply;
    RunConcat(cfg, Empty(), before, [op]);
    RunOne(cfg, Run(cfg, Empty(), before), op);
  }

  // An absent key gets exactly the value it is inserted with, for timeout + 1 ticks or for good.
  lemma InsertedValueIsServed<K(!new), V>(cfg: Config<V>, before: seq<Op<K, V>>, key: K, value: V, timeout: nat,
                                          callback: Option<nat>, after: seq<Op<K, V>>)
    requires Sane(cfg) && LeavesAlone(after, key) && Asked(cfg, before, OpFind(key)) == Flag(false)
    ensures var ops := Then(before, OpInsert(key, value, timeout, callback), after);
      && (Serves(cfg, ops, key, Some(value)) || (timeout > 0 && Serves(cfg, ops, key, None)))
      && (timeout + 1 <= Pow(cfg.b, cfg.w) ==>
            Serves(cfg, ops, key, if timeout == 0 || Ticks(after) <= timeout then Some(value) else None))
  {
    hide Asked, Serves, Run, Deadline, Pow;
    var op := OpInsert(key, value, timeout, callback);
    ServesStored(cfg, before, key);
    RunThen(cfg, before, op);
    DeadlineIsAhead(cfg, Run(cfg, Empty(), before).now, timeout);
    LeftAlone(cfg, before + [op], after, key);
  }

  lemma DeadlineIsAhead<V>(cfg: Config<V>, now: nat, timeout: nat)
    requires Sane(cfg)
    ensures Deadline(cfg, now, timeout) > now
    ensures timeout + 1 <= Pow(cfg.b, cfg.w) ==> Deadline(cfg, now, timeout) == now + timeout + 1
  {
    if timeout + 1 <= Pow(cfg.b, cfg.w) { DeadlineIsExact(cfg, now, timeout); }
  }

  // The same for a key that modify creates; its value is the handler's for the default.
  lemma ModifiedDefaultIsServed<K(!new), V>(cfg: Config<V>, before: seq<Op<K, V>>, key: K, handler: V -> V,
                                            timeout: nat, after: seq<Op<K, V>>)
    requires Sane(cfg) && LeavesAlone(after, key) && Asked(cfg, before, OpFind(key)) == Flag(false)
    ensures var ops := Then(before, OpModify(key, handler, timeout), after);
      && (Serves(cfg, ops, key, Some(handler(cfg.dflt))) || (timeout > 0 && Serves(cfg, ops, key, None)))
      && (timeout + 1 <= Pow(cfg.b, cfg.w) ==>
            Serves(cfg, ops, key, if timeout == 0 || Ticks(after) <= timeout then Some(handler(cfg.dflt)) else None))
  {
    hide Asked, Serves, Run, Deadline, Pow;
    var op := OpModify(key, handler, timeout);
    ServesStored(cfg, before, key);
    RunThen(cfg, before, op);
    DeadlineIsAhead(cfg, Run(cfg, Empty(), before).now, timeout);
    LeftAlone(cfg, before + [op], after, key);
  }

  // A key that was inserted, is left alone for a while, meets another call, and is left alone again.
  ghost function Revisited<K, V>(before: seq<Op<K, V>>, key: K, value: V, timeout: nat, callback: Option<nat>,
                                 between: seq<Op<K, V>>, op: Op<K, V>, after: seq<Op<K, V>>): seq<Op<K, V>> {
    Then(Then(before, OpInsert(key, value, timeout, callback), between), op, after)
  }

  // Another insert of it changes neither value nor timeout; the key then lives to the later of the two
  // deadlines.  A lookup or a modification counts its own timeout from the start, and a modification
  // leaves the handler's value.  Erasing ends it.
  lemma RevisitedKeyIsServed<K(!new), V>(cfg: Config<V>, before: seq<Op<K, V>>, key: K, value: V, timeout: nat,
                                         callback: Option<nat>, between: seq<Op<K, V>>, op: Op<K, V>,
                                         after: seq<Op<K, V>>)
    requires Sane(cfg) && LeavesAlone(between, key) && LeavesAlone(after, key) && Mentions(op, key)
    requires Asked(cfg, before, OpFind(key)) == Flag(false)
    requires timeout + 1 <= Pow(cfg.b, cfg.w) && InReach(cfg, op) && (timeout == 0 || Ticks(between) <= timeout)
    ensures var ops := Revisited(before, key, value, timeout, callback, between, op, after);
      var same := timeout == 0 || Ticks(between) + Ticks(after) <= timeout;
      var renewed := timeout == 0 || Ticks(after) <= timeout;
      match op
      case OpInsert(_, _, again, _) =>
        Serves(cfg, ops, key, if same || (again > 0 && Ticks(after) <= again) then Some(value) else None)
      case OpModify(_, handler, _) => Serves(cfg, ops, key, if renewed then Some(handler(value)) else None)
      case OpErase(_) => Serves(cfg, ops, key, None)
      case _ => Serves(cfg, ops, key, if renewed then Some(value) else None)
  {
    hide Asked, Serves, Run, Deadline, Pow, Ticks;
    var first := OpInsert(key, value, timeout, callback);
    ServesStored(cfg, before, key);
    RunThen(cfg, before, first);
    DeadlineIsAhead(cfg, Run(cfg, Empty(), before).now, timeout);
    var c1 := Run(cfg, Empty(), before + [first]);
    RunConcat(cfg, Empty(), before + [first], between);
    RunTicks(cfg, c1, between);
    UntouchedKeyLivesToItsDeadline(cfg, c1, between, key);
    var middle := before + [first] + between;
    var c2 := Run(cfg, Empty(), middle);
    RunThen(cfg, middle, op);
    DeadlineIsAhead(cfg, c2.now, timeout);
    RevisitedItem(cfg, c2, key, op);
    if op.OpErase? {
      ErasedStaysAbsent(cfg, middle + [op], after, key);
    } else {
      LeftAlone(cfg, middle + [op], after, key);
    }
  }

  lemma RevisitedItem<K(!new), V>(cfg: Config<V>, c: Cache<K, V>, key: K, op: Op<K, V>)
    requires Sane(cfg) && key in c.items && Mentions(op, key) && InReach(cfg, op)
    requires c.items[key].timeout + 1 <= Pow(cfg.b, cfg.w)
    ensures var c', it := Apply(cfg, c, op), c.items[key];
      && c'.now == c.now && (op.OpErase? <==> key !in c'.items)
      && (!op.OpErase? ==>
            && c'.items[key].timeout == it.timeout
            && c'.items[key].value == (if op.OpModify? then op.handler(it.value) else it.value)
            && var delay := if op.OpInsert? then op.timeout else it.timeout;
               (it.timeout > 0 ==>
                 c'.items[key].deadline == if delay == 0 then it.deadline else Max(it.deadline, c.now + delay + 1)))
  {
    if op.OpInsert? { DeadlineIsExact(cfg, c.now, op.timeout); }
    DeadlineIsExact(cfg, c.now, c.items[key].timeout);
    hide Deadline, Pow;
  }

  lemma ErasedStaysAbsent<K(!new), V>(cfg: Config<V>, before: seq<Op<K, V>>, after: seq<Op<K, V>>, key: K)
    requires Sane(cfg) && LeavesAlone(after, key) && key !in Run(cfg, Empty(), before).items
    ensures Serves(cfg, before + after, key, None)
  {
    hide Run, Serves;
    RunConcat(cfg, Empty(), before, after);
    AbsentKeyStaysAbsent(cfg, Run(cfg, Empty(), before), after, key);
    ServesStored(cfg, before + after, key);
  }

  // In every reachable state, erasing a key makes it absent until it is stored again, and so does never
  // storing it.
  lemma ErasedKeyIsGone<K(!new), V>(cfg: Config<V>, before: seq<Op<K, V>>, key: K, after: seq<Op<K, V>>)
    requires Sane(cfg) && LeavesAlone(after, key)
    ensures Serves(cfg, Then(before, OpErase(key), after), key, None)
    ensures Asked(cfg, before, OpFind(key)) == Flag(false) ==> Serves(cfg, before + after, key, None)
  {
    hide Run, Serves, Asked;
    RunThen(cfg, before, OpErase(key));
    ErasedStaysAbsent(cfg, before + [OpErase(key)], after, key);
    ServesStored(cfg, before, key);
    if Asked(cfg, before, OpFind(key)) == Flag(false) { ErasedStaysAbsent(cfg, before, after, key); }
  }

  // ---- the hooks ----

  // The insert hook runs once for every insert, whether the key is there or not, and for every modify of
  // an absent key; the erase hook runs once for every erase, apart from expiry.
  lemma HooksRun<K(!new), V>(cfg: Config<V>, before: seq<Op<K, V>>, op: Op<K, V>, key: K)
    requires Sane(cfg)
    ensures var c, c' := Run(cfg, Empty<K, V>(), before), Run(cfg, Empty<K, V>(), before + [op]);
      var stores := op.OpInsert? || (op.OpModify? && Asked(cfg, before, OpFind(op.key)) == Flag(false));
      && c'.log[Inserted(key)] == c.log[Inserted(key)] + (if stores && op.key == key then 1 else 0)
      && c'.log[Erased(key)] == c.log[Erased(key)] + (if op == OpErase(key) then 1 else 0)
  {
    hide Run, Asked, Deadline;
    var c := Run(cfg, Empty<K, V>(), before);
    RunThen(cfg, before, op);
    if op.OpModify? { ServesStored(cfg, before, op.key); }
    if op.OpTick? {
      var m := c.(now := c.now + 1);
      ReleasedLog(m, DueKeys(m), DueTasks(m), Inserted(key));
      ReleasedLog(m, DueKeys(m), DueTasks(m), Erased(key));
    }
  }

  // Destroying the cache expires no key and runs no callback or hook of one.
  lemma DestructionIsSilent<K(!new), V>(c: Cache<K, V>, e: Event<K>)
    requires !e.Ran?
    ensures Destroy(c).items == map[] && Destroy(c).log[e] == c.log[e]
  {
    var m := c.(items := map[]);
    ReleasedLog(m, {}, m.tasks.Keys, e);
  }
}
