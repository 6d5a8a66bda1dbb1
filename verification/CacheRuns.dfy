/**
  Whole runs of the expiring cache: what holds after any sequence of calls and ticks.
*/
module CacheRuns {
  import opened Basics
  import opened TimingWheel
  import opened D = DeadlineCache
  import C = CacheMap

  datatype Op<K, !V> =
    | OpInsert(key: K, value: V, timeout: nat, callback: Option<nat>)
    | OpFind(key: K)
    | OpIndex(key: K)
    | OpFetch(key: K)
    | OpModify(key: K, handler: V -> V, timeout: nat)
    | OpErase(key: K)
    | OpRunAfter(delay: nat, token: nat)
    | OpTick

  ghost function Apply<K, V>(cfg: Config<V>, c: Cache<K, V>, op: Op<K, V>): Cache<K, V>
    requires Sane(cfg)
  {
    match op
    case OpInsert(key, value, timeout, callback) => Insert(cfg, c, key, value, timeout, callback)
    case OpFind(key) => Access(cfg, c, key)
    case OpIndex(key) => Access(cfg, c, key)
    case OpFetch(key) => Access(cfg, c, key)
    case OpModify(key, handler, timeout) => Modify(cfg, c, key, handler, timeout)
    case OpErase(key) => Erase(c, key)
    case OpRunAfter(delay, token) => RunAfter(cfg, c, delay, token)
    case OpTick => Tick(c)
  }

  ghost function Run<K, V>(cfg: Config<V>, c: Cache<K, V>, ops: seq<Op<K, V>>): Cache<K, V>
    requires Sane(cfg)
    decreases |ops|
  {
    if ops == [] then c else Run(cfg, Apply(cfg, c, ops[0]), ops[1..])
  }

  // What a call returns: find's flag, operator[]'s value, and findAndFetch's value if it found one.
  datatype Answer<V> = Done | Flag(found: bool) | Value(value: V) | Fetched(fetched: Option<V>)

  function AnswerOf<K, V>(cfg: Config<V>, c: Cache<K, V>, op: Op<K, V>): Answer<V> {
    match op
    case OpFind(key) => Flag(key in c.items)
    case OpIndex(key) => Value(if key in c.items then c.items[key].value else cfg.dflt)
    case OpFetch(key) => Fetched(if key in c.items then Some(c.items[key].value) else None)
    case _ => Done
  }

  // The answers of a run, each read off the deadline map at the moment of the call.
  ghost function Answers<K, V>(cfg: Config<V>, c: Cache<K, V>, ops: seq<Op<K, V>>): seq<Answer<V>>
    requires Sane(cfg)
    decreases |ops|
  {
    if ops == [] then [] else [AnswerOf(cfg, c, ops[0])] + Answers(cfg, Apply(cfg, c, ops[0]), ops[1..])
  }

  method Perform<K(==,!new), V(!new)>(cache: C.CacheMap<K, V>, op: Op<K, V>) returns (answer: Answer<V>)
    requires cache.Valid()
    modifies cache
    ensures cache.Valid() && cache.model == Apply(cache.cfg, old(cache.model), op)
    ensures answer == AnswerOf(cache.cfg, old(cache.model), op)
  {
    hide C.CacheMap.Valid;
    answer := Done;
    match op {
      case OpInsert(key, value, timeout, callback) => cache.Insert(key, value, timeout, callback);
      case OpFind(key) =>
        var flag := cache.Find(key);
        answer := Flag(flag);
      case OpIndex(key) =>
        var value := cache.Index(key);
        answer := Value(value);
      case OpFetch(key) =>
        var fetched := cache.FindAndFetch(key);
        answer := Fetched(fetched);
      case OpModify(key, handler, timeout) => cache.Modify(key, handler, timeout);
      case OpErase(key) => cache.Erase(key);
      case OpRunAfter(delay, token) => cache.RunAfter(delay, token);
      case OpTick => cache.Tick();
    }
  }

  // A cache object is indistinguishable from the deadline map over every run, in its state and in all
  // that its calls return.
  method Replay<K(==,!new), V(!new)>(cache: C.CacheMap<K, V>, ops: seq<Op<K, V>>) returns (answers: seq<Answer<V>>)
    requires cache.Valid()
    modifies cache
    ensures cache.Valid() && cache.model == Run(cache.cfg, old(cache.model), ops)
    ensures answers == Answers(cache.cfg, old(cache.model), ops)
  {
    hide Apply, AnswerOf, Run, Answers, C.CacheMap.Valid;
    ValidIsSane(cache);
    var i := 0;
    answers := [];
    assert ops[0..] == ops;
    while i < |ops|
      invariant 0 <= i <= |ops| && cache.Valid()
      invariant Run(cache.cfg, cache.model, ops[i..]) == Run(cache.cfg, old(cache.model), ops)
      invariant answers + Answers(cache.cfg, cache.model, ops[i..]) == Answers(cache.cfg, old(cache.model), ops)
    {
      ghost var before := cache.model;
      var answer := Perform(cache, ops[i]);
      RunStep(cache.cfg, before, ops, i);
      AppendAnswer(answers, answer, Answers(cache.cfg, cache.model, ops[i + 1..]));
      answers := answers + [answer];
      i := i + 1;
    }
    RunEnd(cache.cfg, cache.model, ops[i..]);
    assert answers + [] == answers;
  }

  lemma ValidIsSane<K(!new), V(!new)>(cache: C.CacheMap<K, V>)
    requires cache.Valid()
    ensures Sane(cache.cfg)
  {
  }

  lemma RunStep<K, V>(cfg: Config<V>, c: Cache<K, V>, ops: seq<Op<K, V>>, i: nat)
    requires Sane(cfg) && i < |ops|
    ensures var c' := Apply(cfg, c, ops[i]);
      && Run(cfg, c, ops[i..]) == Run(cfg, c', ops[i + 1..])
      && Answers(cfg, c, ops[i..]) == [AnswerOf(cfg, c, ops[i])] + Answers(cfg, c', ops[i + 1..])
  {
    hide Apply, AnswerOf;
    assert ops[i..][0] == ops[i] && ops[i..][1..] == ops[i + 1..];
  }

  lemma RunEnd<K, V>(cfg: Config<V>, c: Cache<K, V>, ops: seq<Op<K, V>>)
    requires Sane(cfg) && ops == []
    ensures Run(cfg, c, ops) == c && Answers(cfg, c, ops) == []
  {
  }

  lemma AppendAnswer<V>(answers: seq<Answer<V>>, answer: Answer<V>, rest: seq<Answer<V>>)
    ensures answers + ([answer] + rest) == answers + [answer] + rest
  {
  }

  // What a call, as opposed to a tick, leaves alone.
  lemma CallFrame<K(!new), V>(cfg: Config<V>, c: Cache<K, V>, op: Op<K, V>)
    requires Sane(cfg) && !op.OpTick?
    ensures var c' := Apply(cfg, c, op);
      && c'.now == c.now && c'.born >= c.born
      && (forall e: Event<K> :: e.Expired? ==> c'.log[e] == c.log[e])
      && (forall k :: k in c'.items ==>
            if k in c.items then c'.items[k].serial == c.items[k].serial && c'.items[k].callback == c.items[k].callback
            else c'.items[k].serial == c.born < c'.born)
      && (forall k :: k in c.items && op != OpErase(k) ==> k in c'.items)
      && (op.OpErase? ==> op.key !in c'.items)
  {
    CallLogFrame(cfg, c, op);
    CallItemFrame(cfg, c, op);
    hide Apply;
  }

  lemma CallItemFrame<K(!new), V>(cfg: Config<V>, c: Cache<K, V>, op: Op<K, V>)
    requires Sane(cfg) && !op.OpTick?
    ensures var c' := Apply(cfg, c, op);
      && c'.now == c.now && c'.born >= c.born
      && (forall k :: k in c'.items ==>
            if k in c.items then c'.items[k].serial == c.items[k].serial && c'.items[k].callback == c.items[k].callback
            else c'.items[k].serial == c.born < c'.born)
      && (forall k :: k in c.items && op != OpErase(k) ==> k in c'.items)
      && (op.OpErase? ==> op.key !in c'.items)
  {
    var c' := Apply(cfg, c, op);
    CallCounters(cfg, c, op);
    hide Apply;
    forall k: K
      ensures k in c'.items && k in c.items ==>
        c'.items[k].serial == c.items[k].serial && c'.items[k].callback == c.items[k].callback
      ensures k in c'.items && k !in c.items ==> c'.items[k].serial == c.born < c'.born
      ensures k in c.items && op != OpErase(k) ==> k in c'.items
      ensures op == OpErase(k) ==> k !in c'.items
    {
      OneItemFrame(cfg, c, op, k);
    }
  }

  lemma CallCounters<K(!new), V>(cfg: Config<V>, c: Cache<K, V>, op: Op<K, V>)
    requires Sane(cfg) && !op.OpTick?
    ensures Apply(cfg, c, op).now == c.now && Apply(cfg, c, op).born >= c.born
  {
    hide Deadline, Max;
  }

  lemma OneItemFrame<K(!new), V>(cfg: Config<V>, c: Cache<K, V>, op: Op<K, V>, k: K)
    requires Sane(cfg) && !op.OpTick?
    ensures var c' := Apply(cfg, c, op);
      && (k in c'.items && k in c.items ==>
            c'.items[k].serial == c.items[k].serial && c'.items[k].callback == c.items[k].callback)
      && (k in c'.items && k !in c.items ==> c'.items[k].serial == c.born < c'.born)
      && (k in c.items && op != OpErase(k) ==> k in c'.items)
      && (op == OpErase(k) ==> k !in c'.items)
  {
    hide Deadline, Max;
  }

  lemma CallLogFrame<K(!new), V>(cfg: Config<V>, c: Cache<K, V>, op: Op<K, V>)
    requires Sane(cfg) && !op.OpTick?
    ensures forall e: Event<K> :: e.Expired? ==> Apply(cfg, c, op).log[e] == c.log[e]
  {
    hide Deadline;
  }

  lemma UntouchedFrame<K(!new), V>(cfg: Config<V>, c: Cache<K, V>, op: Op<K, V>, key: K)
    requires Sane(cfg) && !op.OpTick? && !Mentions(op, key)
    ensures var c' := Apply(cfg, c, op);
      c'.now == c.now && (key in c'.items <==> key in c.items) && (key in c.items ==> c'.items[key] == c.items[key])
  {
    hide Deadline;
  }

  lemma CallTaskFrame<K(!new), V>(cfg: Config<V>, c: Cache<K, V>, op: Op<K, V>)
    requires Sane(cfg) && !op.OpTick?
    ensures var c' := Apply(cfg, c, op);
      && c'.now == c.now && c'.posted >= c.posted
      && (forall e: Event<K> :: e.Ran? && e.no != c.posted ==> c'.log[e] == c.log[e])
      && (forall e :: e in c'.log && e.Ran? ==> e in c.log || e.no < c'.posted)
      && (forall no :: no in c.tasks && no != c.posted ==> no in c'.tasks && c'.tasks[no] == c.tasks[no])
      && (forall no :: no in c'.tasks ==> no in c.tasks || c.posted == no < c'.posted)
  {
    CallTaskLog(cfg, c, op);
    CallTaskMap(cfg, c, op);
    hide Apply;
  }

  lemma CallTaskLog<K(!new), V>(cfg: Config<V>, c: Cache<K, V>, op: Op<K, V>)
    requires Sane(cfg) && !op.OpTick?
    ensures var c' := Apply(cfg, c, op);
      && (forall e: Event<K> :: e.Ran? && e.no != c.posted ==> c'.log[e] == c.log[e])
      && (forall e :: e in c'.log && e.Ran? ==> e in c.log || e.no < c'.posted)
  {
    hide Deadline;
  }

  lemma CallTaskMap<K(!new), V>(cfg: Config<V>, c: Cache<K, V>, op: Op<K, V>)
    requires Sane(cfg) && !op.OpTick?
    ensures var c' := Apply(cfg, c, op);
      && c'.now == c.now && c'.posted >= c.posted
      && (forall no :: no in c.tasks && no != c.posted ==> no in c'.tasks && c'.tasks[no] == c.tasks[no])
      && (forall no :: no in c'.tasks ==> no in c.tasks || c.posted == no < c'.posted)
  {
    hide Deadline;
  }

  // ---- one task ----

  // Task `no` waits with its due tick ahead and has not run, or its due tick is past and it ran once.
  ghost predicate TaskStory<K, V>(c: Cache<K, V>, no: nat, token: nat, due: nat) {
    && no < c.posted
    && if no in c.tasks then c.tasks[no] == Task(token, due) && due > c.now && c.log[Ran(no, token)] == 0
       else due <= c.now && c.log[Ran(no, token)] == 1
  }

  // No event of a task appears before it is posted.
  ghost predicate TasksKnown<K(!new), V>(c: Cache<K, V>) {
    && (forall no :: no in c.tasks ==> no < c.posted)
    && (forall e :: e in c.log && e.Ran? ==> e.no < c.posted)
  }

  lemma ReleasedLog<K, V>(c: Cache<K, V>, keys: set<K>, nos: set<nat>, e: Event<K>)
    requires keys <= c.items.Keys && nos <= c.tasks.Keys
    ensures Released(c, keys, nos).log[e]
            == c.log[e] + (if e in KeyEvents(c, keys) then 1 else 0) + (if e in TaskEvents(c, nos) then 1 else 0)
  {
  }

  lemma TaskStoryStep<K(!new), V>(cfg: Config<V>, c: Cache<K, V>, op: Op<K, V>, no: nat, token: nat, due: nat)
    requires Sane(cfg) && TaskStory(c, no, token, due)
    ensures TaskStory(Apply(cfg, c, op), no, token, due)
  {
    hide Insert;
    hide Modify;
    hide Access;
    hide Erase;
    hide RunAfter;
    if op.OpTick? {
      var m := c.(now := c.now + 1);
      ReleasedLog(m, DueKeys(m), DueTasks(m), Ran(no, token));
    } else {
      CallTaskFrame(cfg, c, op);
    }
  }

  lemma TasksKnownTick<K(!new), V>(c: Cache<K, V>)
    requires TasksKnown(c)
    ensures TasksKnown(Tick(c))
  {
    var m := c.(now := c.now + 1);
    forall e | e in Tick(c).log ensures e in c.log || e in KeyEvents(m, DueKeys(m)) || e in TaskEvents(m, DueTasks(m)) {
      ReleasedLog(m, DueKeys(m), DueTasks(m), e);
    }
  }

  lemma TasksKnownStep<K(!new), V>(cfg: Config<V>, c: Cache<K, V>, op: Op<K, V>)
    requires Sane(cfg) && TasksKnown(c)
    ensures TasksKnown(Apply(cfg, c, op))
  {
    hide Insert, Modify, Access, Erase, RunAfter, Tick;
    if op.OpTick? { TasksKnownTick(c); } else { CallTaskFrame(cfg, c, op); }
  }

  lemma {:induction false} TaskStoryRun<K(!new), V>(cfg: Config<V>, c: Cache<K, V>, ops: seq<Op<K, V>>, no: nat,
                                                    token: nat, due: nat)
    requires Sane(cfg) && TaskStory(c, no, token, due)
    ensures TaskStory(Run(cfg, c, ops), no, token, due)
    decreases |ops|
  {
    if ops != [] {
      TaskStoryStep(cfg, c, ops[0], no, token, due);
      TaskStoryRun(cfg, Apply(cfg, c, ops[0]), ops[1..], no, token, due);
    }
  }

  lemma {:induction false} TasksKnownRun<K(!new), V>(cfg: Config<V>, c: Cache<K, V>, ops: seq<Op<K, V>>)
    requires Sane(cfg) && TasksKnown(c)
    ensures TasksKnown(Run(cfg, c, ops))
    decreases |ops|
  {
    if ops != [] {
      TasksKnownStep(cfg, c, ops[0]);
      TasksKnownRun(cfg, Apply(cfg, c, ops[0]), ops[1..]);
    }
  }

  // The first tick at which a task posted with this delay has run.
  function DueOf<V>(cfg: Config<V>, now: nat, delay: nat): nat
    requires Sane(cfg)
  {
    if delay == 0 then now else Deadline(cfg, now, delay)
  }

  lemma TaskStoryStarts<K(!new), V>(cfg: Config<V>, c: Cache<K, V>, delay: nat, token: nat)
    requires Sane(cfg) && TasksKnown(c)
    ensures TaskStory(Apply(cfg, c, OpRunAfter(delay, token)), c.posted, token, DueOf(cfg, c.now, delay))
  {
    assert Ran(c.posted, token) !in c.log;
  }

  lemma DestroyRunsTask<K(!new), V>(c: Cache<K, V>, no: nat, token: nat, due: nat)
    requires TaskStory(c, no, token, due)
    ensures Destroy(c).log[Ran(no, token)] == 1
  {
    var m := c.(items := map[]);
    ReleasedLog(m, {}, m.tasks.Keys, Ran(no, token));
  }

  // A posted task runs exactly once: when its tick comes, or else when the cache is destroyed.  A
  // delay in range is met to the tick.
  lemma TaskRunsExactlyOnce<K(!new), V>(cfg: Config<V>, before: seq<Op<K, V>>, delay: nat, token: nat,
                                        after: seq<Op<K, V>>)
    requires Sane(cfg)
    ensures var c := Run(cfg, Empty<K, V>(), before);
            var c' := Run(cfg, Apply(cfg, c, OpRunAfter(delay, token)), after);
            var e: Event<K> := Ran(c.posted, token);
            && c'.log[e] == (if c'.now < DueOf(cfg, c.now, delay) then 0 else 1)
            && Destroy(c').log[e] == 1
    ensures var c := Run(cfg, Empty<K, V>(), before);
            0 < delay && delay + 1 <= Pow(cfg.b, cfg.w) ==> DueOf(cfg, c.now, delay) == c.now + delay + 1
  {
    hide Run;
    hide Destroy;
    var c := Run(cfg, Empty<K, V>(), before);
    TasksKnownRun(cfg, Empty<K, V>(), before);
    var c1 := Apply(cfg, c, OpRunAfter(delay, token));
    TaskStoryStarts(cfg, c, delay, token);
    TaskStoryRun(cfg, c1, after, c.posted, token, DueOf(cfg, c.now, delay));
    DestroyRunsTask(Run(cfg, c1, after), c.posted, token, DueOf(cfg, c.now, delay));
    if 0 < delay && delay + 1 <= Pow(cfg.b, cfg.w) {
      ExactInEveryPhaseIff(delay + 1, cfg.w, cfg.b);
    }
  }

  // ---- one incarnation of a key ----

  ghost predicate NoEventOf<K(!new), V>(c: Cache<K, V>, serial: nat) {
    forall e :: e in c.log && e.Expired? ==> e.serial != serial
  }

  ghost predicate NotStored<K(!new), V>(c: Cache<K, V>, serial: nat) {
    serial < c.born && forall k :: k in c.items ==> c.items[k].serial != serial
  }

  // The three states of an incarnation: stored, explicitly erased (its callback has not run and never
  // will), expired (its callback has run, once).
  ghost predicate Living<K(!new), V>(c: Cache<K, V>, key: K, serial: nat, callback: Option<nat>) {
    && serial < c.born && key in c.items && c.items[key].serial == serial && c.items[key].callback == callback
    && (forall k :: k in c.items && c.items[k].serial == serial ==> k == key)
    && NoEventOf(c, serial)
  }

  ghost predicate Silenced<K(!new), V>(c: Cache<K, V>, serial: nat) {
    NotStored(c, serial) && NoEventOf(c, serial)
  }

  ghost predicate ExpiredOnce<K(!new), V>(c: Cache<K, V>, key: K, serial: nat, callback: Option<nat>) {
    && NotStored(c, serial)
    && c.log[Expired(key, serial, callback)] == 1
    && (forall e :: e in c.log && e.Expired? && e.serial == serial ==> e == Expired(key, serial, callback))
  }

  ghost predicate SerialsKnown<K(!new), V>(c: Cache<K, V>) {
    && (forall k :: k in c.items ==> c.items[k].serial < c.born)
    && (forall e :: e in c.log && e.Expired? ==> e.serial < c.born)
  }

  lemma TickEvent<K, V>(c: Cache<K, V>, e: Event<K>)
    requires e.Expired?
    ensures var m := c.(now := c.now + 1);
            Tick(c).log[e] == c.log[e] +
              (if e.key in c.items && KeyDue(m, e.key) && c.items[e.key].serial == e.serial
                && c.items[e.key].callback == e.callback
               then 1 else 0)
  {
    var m := c.(now := c.now + 1);
    ReleasedLog(m, DueKeys(m), DueTasks(m), e);
    if e.key in c.items && KeyDue(m, e.key) { assert e.key in DueKeys(m); }
  }

  lemma SerialsKnownStep<K(!new), V>(cfg: Config<V>, c: Cache<K, V>, op: Op<K, V>)
    requires Sane(cfg) && SerialsKnown(c)
    ensures SerialsKnown(Apply(cfg, c, op))
  {
    hide Insert;
    hide Modify;
    hide Access;
    hide Erase;
    hide RunAfter;
    if op.OpTick? {
      forall e | e in Tick(c).log && e.Expired? ensures e.serial < c.born { TickEvent(c, e); }
    } else {
      CallFrame(cfg, c, op);
    }
  }

  lemma {:induction false} SerialsKnownRun<K(!new), V>(cfg: Config<V>, c: Cache<K, V>, ops: seq<Op<K, V>>)
    requires Sane(cfg) && SerialsKnown(c)
    ensures SerialsKnown(Run(cfg, c, ops))
    decreases |ops|
  {
    if ops != [] {
      SerialsKnownStep(cfg, c, ops[0]);
      SerialsKnownRun(cfg, Apply(cfg, c, ops[0]), ops[1..]);
    }
  }

  ghost predicate DueNext<K, V>(c: Cache<K, V>, key: K) {
    key in c.items && KeyDue(c.(now := c.now + 1), key)
  }

  // An incarnation leaves the cache by its key's erase or by the tick of its deadline, and only then.
  lemma LivingStep<K(!new), V>(cfg: Config<V>, c: Cache<K, V>, op: Op<K, V>, key: K, serial: nat, callback: Option<nat>)
    requires Sane(cfg) && Living(c, key, serial, callback)
    ensures var c' := Apply(cfg, c, op);
            if op == OpErase(key) then Silenced(c', serial)
            else if op.OpTick? && DueNext(c, key) then ExpiredOnce(c', key, serial, callback)
            else Living(c', key, serial, callback)
  {
    hide Insert;
    hide Modify;
    hide Access;
    hide Erase;
    hide RunAfter;
    if op.OpTick? {
      forall e | e in Tick(c).log && e.Expired? && e.serial == serial
        ensures DueNext(c, key) && e == Expired(key, serial, callback)
      {
        TickEvent(c, e);
      }
      TickEvent(c, Expired(key, serial, callback));
    } else {
      CallFrame(cfg, c, op);
    }
  }

  lemma SilencedStep<K(!new), V>(cfg: Config<V>, c: Cache<K, V>, op: Op<K, V>, serial: nat)
    requires Sane(cfg) && Silenced(c, serial)
    ensures Silenced(Apply(cfg, c, op), serial)
  {
    hide Insert;
    hide Modify;
    hide Access;
    hide Erase;
    hide RunAfter;
    if op.OpTick? {
      forall e | e in Tick(c).log && e.Expired? ensures e.serial != serial { TickEvent(c, e); }
    } else {
      CallFrame(cfg, c, op);
    }
  }

  lemma ExpiredOnceStep<K(!new), V>(cfg: Config<V>, c: Cache<K, V>, op: Op<K, V>, key: K, serial: nat,
                                    callback: Option<nat>)
    requires Sane(cfg) && ExpiredOnce(c, key, serial, callback)
    ensures ExpiredOnce(Apply(cfg, c, op), key, serial, callback)
  {
    hide Insert;
    hide Modify;
    hide Access;
    hide Erase;
    hide RunAfter;
    if op.OpTick? {
      forall e | e in Tick(c).log && e.Expired? && e.serial == serial
        ensures e == Expired(key, serial, callback)
      {
        TickEvent(c, e);
      }
      TickEvent(c, Expired(key, serial, callback));
    } else {
      CallFrame(cfg, c, op);
    }
  }

  lemma {:induction false} SilencedRun<K(!new), V>(cfg: Config<V>, c: Cache<K, V>, ops: seq<Op<K, V>>, serial: nat)
    requires Sane(cfg) && Silenced(c, serial)
    ensures Silenced(Run(cfg, c, ops), serial)
    decreases |ops|
  {
    if ops != [] {
      SilencedStep(cfg, c, ops[0], serial);
      SilencedRun(cfg, Apply(cfg, c, ops[0]), ops[1..], serial);
    }
  }

  lemma {:induction false} ExpiredOnceRun<K(!new), V>(cfg: Config<V>, c: Cache<K, V>, ops: seq<Op<K, V>>, key: K,
                                                      serial: nat, callback: Option<nat>)
    requires Sane(cfg) && ExpiredOnce(c, key, serial, callback)
    ensures ExpiredOnce(Run(cfg, c, ops), key, serial, callback)
    decreases |ops|
  {
    if ops != [] {
      ExpiredOnceStep(cfg, c, ops[0], key, serial, callback);
      ExpiredOnceRun(cfg, Apply(cfg, c, ops[0]), ops[1..], key, serial, callback);
    }
  }

  // How an incarnation's story goes on: erased or expired, whichever a run brings first.
  ghost predicate Outlived<K(!new), V>(cfg: Config<V>, c: Cache<K, V>, ops: seq<Op<K, V>>, key: K)
    requires Sane(cfg)
    decreases |ops|
  {
    ops == [] || (ops[0] != OpErase(key) && !(ops[0].OpTick? && DueNext(c, key))
      && Outlived(cfg, Apply(cfg, c, ops[0]), ops[1..], key))
  }

  ghost predicate ErasedFirst<K(!new), V>(cfg: Config<V>, c: Cache<K, V>, ops: seq<Op<K, V>>, key: K)
    requires Sane(cfg)
    decreases |ops|
  {
    ops != [] && (ops[0] == OpErase(key)
      || (!(ops[0].OpTick? && DueNext(c, key)) && ErasedFirst(cfg, Apply(cfg, c, ops[0]), ops[1..], key)))
  }

  // Over every run an incarnation's timeout callback runs exactly once if the tick of its deadline comes
  // before an erase of its key, and never otherwise, whatever becomes of the key's later incarnations.
  lemma {:induction false} CallbackOncePerIncarnation<K(!new), V>(cfg: Config<V>, c: Cache<K, V>, ops: seq<Op<K, V>>,
                                                                  key: K, serial: nat, callback: Option<nat>)
    requires Sane(cfg) && Living(c, key, serial, callback)
    ensures var c' := Run(cfg, c, ops);
            if Outlived(cfg, c, ops, key) then Living(c', key, serial, callback)
            else if ErasedFirst(cfg, c, ops, key) then Silenced(c', serial)
            else ExpiredOnce(c', key, serial, callback)
    decreases |ops|
  {
    if ops != [] {
      var c1 := Apply(cfg, c, ops[0]);
      LivingStep(cfg, c, ops[0], key, serial, callback);
      if ops[0] == OpErase(key) {
        SilencedRun(cfg, c1, ops[1..], serial);
      } else if ops[0].OpTick? && DueNext(c, key) {
        ExpiredOnceRun(cfg, c1, ops[1..], key, serial, callback);
      } else {
        CallbackOncePerIncarnation(cfg, c1, ops[1..], key, serial, callback);
      }
    }
  }

  // In every reachable state, storing an absent key starts an incarnation of its own.
  lemma InsertStartsIncarnation<K(!new), V>(cfg: Config<V>, before: seq<Op<K, V>>, key: K, value: V, timeout: nat,
                                            callback: Option<nat>)
    requires Sane(cfg)
    ensures var c := Run(cfg, Empty<K, V>(), before);
            key !in c.items ==>
              Living(Apply(cfg, c, OpInsert(key, value, timeout, callback)), key, c.born,
                     if timeout > 0 then callback else None)
  {
    SerialsKnownRun(cfg, Empty<K, V>(), before);
  }

  // ---- one key left alone ----

  predicate Mentions<K(==), V>(op: Op<K, V>, key: K) {
    match op
    case OpInsert(k, _, _, _) => k == key
    case OpFind(k) => k == key
    case OpIndex(k) => k == key
    case OpFetch(k) => k == key
    case OpModify(k, _, _) => k == key
    case OpErase(k) => k == key
    case OpRunAfter(_, _) => false
    case OpTick => false
  }

  // A key nobody touches is in the cache, unchanged, exactly until the tick of its deadline.
  lemma {:induction false} UntouchedKeyLivesToItsDeadline<K(!new), V>(cfg: Config<V>, c: Cache<K, V>,
                                                                      ops: seq<Op<K, V>>, key: K)
    requires Sane(cfg) && key in c.items && (c.items[key].timeout > 0 ==> c.items[key].deadline > c.now)
    requires forall op :: op in ops ==> !Mentions(op, key)
    ensures var c' := Run(cfg, c, ops);
            && (key in c'.items <==> c.items[key].timeout == 0 || c'.now < c.items[key].deadline)
            && (key in c'.items ==> c'.items[key] == c.items[key])
    decreases |ops|
  {
    hide Insert;
    hide Modify;
    hide Access;
    hide Erase;
    hide RunAfter;
    if ops != [] {
      assert ops[0] in ops;
      var c1 := Apply(cfg, c, ops[0]);
      if !ops[0].OpTick? { UntouchedFrame(cfg, c, ops[0], key); }
      if key in c1.items {
        UntouchedKeyLivesToItsDeadline(cfg, c1, ops[1..], key);
      } else {
        AbsentKeyStaysAbsent(cfg, c1, ops[1..], key);
      }
    }
  }

  lemma {:induction false} AbsentKeyStaysAbsent<K(!new), V>(cfg: Config<V>, c: Cache<K, V>, ops: seq<Op<K, V>>, key: K)
    requires Sane(cfg) && key !in c.items
    requires forall op :: op in ops ==> !Mentions(op, key)
    ensures key !in Run(cfg, c, ops).items && Run(cfg, c, ops).now >= c.now
    decreases |ops|
  {
    hide Insert;
    hide Modify;
    hide Access;
    hide Erase;
    hide RunAfter;
    if ops != [] {
      assert ops[0] in ops;
      if !ops[0].OpTick? { UntouchedFrame(cfg, c, ops[0], key); }
      AbsentKeyStaysAbsent(cfg, Apply(cfg, c, ops[0]), ops[1..], key);
    }
  }

  // An access within the documented range renews the life of an expiring key to the later of its old
  // deadline and timeout + 1 ticks from now, in every phase of the wheels.
  lemma AccessRenews<K, V>(cfg: Config<V>, c: Cache<K, V>, key: K)
    requires Sane(cfg) && key in c.items
    requires 0 < c.items[key].timeout && c.items[key].timeout + 1 <= Pow(cfg.b, cfg.w)
    ensures var c' := Access(cfg, c, key);
            c'.items == c.items[key := c.items[key].(
              deadline := Max(c.items[key].deadline, c.now + c.items[key].timeout + 1))]
  {
    ExactInEveryPhaseIff(c.items[key].timeout + 1, cfg.w, cfg.b);
  }
}
