/**
  The expiring cache on top of the timing wheels.  The class keeps the source's fields; its ghost
  field `model` is the deadline map that it must stay indistinguishable from, and `Valid` says how the
  stored nodes, the weak references and the entries in the wheels account for that map.

  A tick is one atomic step, callbacks do not re-enter the cache, and the tick interval is 1.
*/
module CacheMap {
  import opened Basics
  import opened TimingWheel
  import opened WheelState
  import opened D = DeadlineCache

  // What the destructor of an entry calls.
  datatype Payload<K> = ExpireKey(key: K) | RunTask(no: nat, token: nat)

  datatype MapValue<V> = MapValue(value: V, timeout: nat, callback: Option<nat>, serial: nat, weakEntry: Option<nat>)

  // A stored node agrees with its item; where the entry goes is not part of this.
  ghost predicate Agrees<V>(s: MapValue<V>, it: Item<V>) {
    s.value == it.value && s.timeout == it.timeout && s.callback == it.callback && s.serial == it.serial
  }

  ghost predicate Locks<K(!new), V>(s: MapValue<V>, held: set<Node<Payload<K>>>) {
    s.weakEntry.Some? && Holds(held, s.weakEntry.value)
  }

  ghost predicate Named<K(!new)>(held: set<Node<Payload<K>>>, nextId: nat) {
    && (forall e :: e in held ==> e.Entry? && e.id < nextId)
    && (forall e, f :: e in held && f in held && e.id == f.id ==> e == f)
  }

  // A key's weak reference leads to entries for that key only, and a key that can expire has one alive.
  ghost predicate KeysLinked<K(!new), V>(store: map<K, MapValue<V>>, held: set<Node<Payload<K>>>, nextId: nat,
                                         items: map<K, Item<V>>) {
    && store.Keys == items.Keys
    && (forall k :: k in store ==> Agrees(store[k], items[k]))
    && (forall k :: k in store && store[k].timeout > 0 ==> Locks(store[k], held))
    && (forall k :: k in store && store[k].weakEntry.Some? ==> store[k].weakEntry.value < nextId)
    && (forall k, e :: k in store && e in held && e.Entry? && store[k].weakEntry == Some(e.id) ==>
        e.payload == ExpireKey(k))
  }

  ghost predicate TaskHeld<K(!new)>(held: set<Node<Payload<K>>>, no: nat, token: nat) {
    exists e :: e in held && e.Entry? && e.payload == RunTask(no, token)
  }

  ghost predicate SameTask<K(!new)>(e: Node<Payload<K>>, f: Node<Payload<K>>) {
    e.Entry? && f.Entry? && e.payload.RunTask? && f.payload.RunTask? && e.payload.no == f.payload.no
  }

  // Every waiting task has exactly one entry, and every task entry is a waiting task.
  ghost predicate TasksLinked<K(!new)>(held: set<Node<Payload<K>>>, posted: nat, tasks: map<nat, Task>) {
    && (forall no :: no in tasks ==> no < posted && TaskHeld(held, no, tasks[no].token))
    && (forall e :: e in held && e.Entry? && e.payload.RunTask? ==>
          e.payload.no in tasks && tasks[e.payload.no].token == e.payload.token)
    && (forall e, f :: e in held && f in held && SameTask(e, f) ==> e == f)
  }

  ghost predicate IsDeadline<P(!new)>(alarms: set<Alarm<P>>, id: nat, due: nat) {
    && (exists a :: a in alarms && a.id == id && a.due == due)
    && (forall a :: a in alarms && a.id == id ==> a.due <= due)
  }

  // The last copy of a key's entry leaves the wheels at the key's deadline.
  ghost predicate KeysOnTime<K(!new), V>(store: map<K, MapValue<V>>, alarms: set<Alarm<Payload<K>>>,
                                         items: map<K, Item<V>>) {
    forall k :: k in store && k in items && store[k].timeout > 0 ==>
      store[k].weakEntry.Some? && IsDeadline(alarms, store[k].weakEntry.value, items[k].deadline)
  }

  ghost predicate TasksOnTime<K(!new)>(alarms: set<Alarm<Payload<K>>>, tasks: map<nat, Task>) {
    forall a :: a in alarms && a.payload.RunTask? && a.payload.no in tasks ==> a.due == tasks[a.payload.no].due
  }

  ghost predicate Links<K(!new), V>(store: map<K, MapValue<V>>, held: set<Node<Payload<K>>>, nextId: nat,
                                    items: map<K, Item<V>>, posted: nat, tasks: map<nat, Task>) {
    Named(held, nextId) && KeysLinked(store, held, nextId, items) && TasksLinked(held, posted, tasks)
  }

  ghost predicate Linked<K(!new), V>(store: map<K, MapValue<V>>, held: set<Node<Payload<K>>>, nextId: nat,
                                     m: Cache<K, V>) {
    Links(store, held, nextId, m.items, m.posted, m.tasks)
  }

  ghost predicate Couples<K(!new), V>(store: map<K, MapValue<V>>, alarms: set<Alarm<Payload<K>>>, nextId: nat,
                                      items: map<K, Item<V>>, posted: nat, tasks: map<nat, Task>) {
    && Links(store, Held(alarms), nextId, items, posted, tasks)
    && KeysOnTime(store, alarms, items)
    && TasksOnTime(alarms, tasks)
  }

  ghost predicate Coupled<K(!new), V>(store: map<K, MapValue<V>>, alarms: set<Alarm<Payload<K>>>, nextId: nat,
                                      m: Cache<K, V>) {
    Couples(store, alarms, nextId, m.items, m.posted, m.tasks)
  }

  // Another copy of a live entry moves that key's deadline to the later of the two, and no other.
  lemma CoupleTouch<K(!new), V>(store: map<K, MapValue<V>>, alarms: set<Alarm<Payload<K>>>, nextId: nat,
                                m: Cache<K, V>, key: K, due: nat)
    requires Coupled(store, alarms, nextId, m) && key in store && Locks(store[key], Held(alarms))
    ensures var it := m.items[key];
            var m' := if it.timeout == 0 then m
                      else m.(items := m.items[key := it.(deadline := Max(it.deadline, due))]);
            Coupled(store, alarms + {Alarm(store[key].weakEntry.value, ExpireKey(key), due)}, nextId, m')
  {
    var id := store[key].weakEntry.value;
    var a0 := Alarm(id, ExpireKey(key), due);
    HeldAgain(store, alarms, nextId, m, key, due);
    var it := m.items[key];
    var m' := if it.timeout == 0 then m else m.(items := m.items[key := it.(deadline := Max(it.deadline, due))]);
    forall k | k in store && store[k].timeout > 0
      ensures IsDeadline(alarms + {a0}, store[k].weakEntry.value, m'.items[k].deadline)
    {
      assert IsDeadline(alarms, store[k].weakEntry.value, m.items[k].deadline);
      if k != key { OtherKey(store, alarms, nextId, m, key, k); }
    }
  }

  lemma HeldAgain<K(!new), V>(store: map<K, MapValue<V>>, alarms: set<Alarm<Payload<K>>>, nextId: nat,
                              m: Cache<K, V>, key: K, due: nat)
    requires Coupled(store, alarms, nextId, m) && key in store && Locks(store[key], Held(alarms))
    ensures Held(alarms + {Alarm(store[key].weakEntry.value, ExpireKey(key), due)}) == Held(alarms)
  {
    var e :| e in Held(alarms) && e.Entry? && e.id == store[key].weakEntry.value;
    assert e.payload == ExpireKey(key);
  }

  // Two keys never share a live entry.
  lemma OtherKey<K(!new), V>(store: map<K, MapValue<V>>, alarms: set<Alarm<Payload<K>>>, nextId: nat, m: Cache<K, V>,
                             key: K, k: K)
    requires Coupled(store, alarms, nextId, m) && key in store && k in store && k != key
    requires Locks(store[k], Held(alarms))
    ensures store[k].weakEntry != store[key].weakEntry
  {
    var e :| e in Held(alarms) && e.Entry? && e.id == store[k].weakEntry.value;
    assert e.payload == ExpireKey(k);
  }

  lemma LinkFresh<K(!new), V>(store: map<K, MapValue<V>>, held: set<Node<Payload<K>>>, nextId: nat,
                              m: Cache<K, V>, key: K, s: MapValue<V>, it: Item<V>)
    requires Linked(store, held, nextId, m) && Agrees(s, it)
    ensures Linked(store[key := s.(weakEntry := Some(nextId))], held + {Entry(nextId, ExpireKey(key))}, nextId + 1,
                   m.(items := m.items[key := it]))
  {
    KeysLinkFresh(store, held, nextId, m.items, key, s, it);
    TasksLinkFresh(held, nextId, m, key);
    hide KeysLinked, TasksLinked;
  }

  lemma KeysLinkFresh<K(!new), V>(store: map<K, MapValue<V>>, held: set<Node<Payload<K>>>, nextId: nat,
                                  items: map<K, Item<V>>, key: K, s: MapValue<V>, it: Item<V>)
    requires Named(held, nextId) && KeysLinked(store, held, nextId, items) && Agrees(s, it)
    ensures KeysLinked(store[key := s.(weakEntry := Some(nextId))], held + {Entry(nextId, ExpireKey(key))}, nextId + 1,
                       items[key := it])
  {
    var held' := held + {Entry(nextId, ExpireKey(key))};
    var store' := store[key := s.(weakEntry := Some(nextId))];
    forall k | k in store' && store'[k].timeout > 0 ensures Locks(store'[k], held') {
      if k == key { assert Entry(nextId, ExpireKey(key)) in held'; } else { assert Locks(store[k], held); }
    }
  }

  lemma TasksLinkFresh<K(!new), V>(held: set<Node<Payload<K>>>, nextId: nat, m: Cache<K, V>, key: K)
    requires Named(held, nextId) && TasksLinked(held, m.posted, m.tasks)
    ensures TasksLinked(held + {Entry(nextId, ExpireKey(key))}, m.posted, m.tasks)
  {
    var held' := held + {Entry(nextId, ExpireKey(key))};
    forall no | no in m.tasks ensures TaskHeld(held', no, m.tasks[no].token) {
      assert TaskHeld(held, no, m.tasks[no].token);
    }
  }

  // The alarms of an entry that does not exist yet do not exist either.
  lemma FreshHasNoAlarm<P(!new)>(alarms: set<Alarm<P>>, id: nat)
    requires forall e :: e in Held(alarms) ==> e.Entry? && e.id < id
    ensures forall a :: a in alarms ==> a.id < id
  {
    forall a | a in alarms ensures a.id < id { assert Entry(a.id, a.payload) in Held(alarms); }
  }

  // A node stored under a key together with a brand-new entry for it.
  lemma CoupleFresh<K(!new), V>(store: map<K, MapValue<V>>, alarms: set<Alarm<Payload<K>>>, nextId: nat,
                                m: Cache<K, V>, key: K, s: MapValue<V>, it: Item<V>, due: nat)
    requires Coupled(store, alarms, nextId, m) && Agrees(s, it) && (it.timeout > 0 ==> it.deadline == due)
    ensures Coupled(store[key := s.(weakEntry := Some(nextId))], alarms + {Alarm(nextId, ExpireKey(key), due)},
      nextId + 1,
                    m.(items := m.items[key := it]))
  {
    var a0 := Alarm(nextId, ExpireKey(key), due);
    var alarms' := alarms + {a0};
    var store' := store[key := s.(weakEntry := Some(nextId))];
    HeldAdd(alarms, a0);
    LinkFresh(store, Held(alarms), nextId, m, key, s, it);
    FreshHasNoAlarm(alarms, nextId);
    forall k | k in store' && store'[k].timeout > 0
      ensures IsDeadline(alarms', store'[k].weakEntry.value, m.items[key := it][k].deadline)
    {
      if k == key {
        assert a0 in alarms';
      } else {
        assert IsDeadline(alarms, store[k].weakEntry.value, m.items[k].deadline);
      }
    }
  }

  // A node that never expires needs no entry.
  lemma CoupleStore<K(!new), V>(store: map<K, MapValue<V>>, alarms: set<Alarm<Payload<K>>>, nextId: nat,
                                m: Cache<K, V>, key: K, s: MapValue<V>, it: Item<V>)
    requires Coupled(store, alarms, nextId, m) && Agrees(s, it) && s.timeout == 0 && s.weakEntry == None
    ensures Coupled(store[key := s], alarms, nextId, m.(items := m.items[key := it]))
  {
  }

  lemma CoupleValue<K(!new), V>(store: map<K, MapValue<V>>, alarms: set<Alarm<Payload<K>>>, nextId: nat,
                                m: Cache<K, V>, key: K, v: V)
    requires Coupled(store, alarms, nextId, m) && key in store
    ensures Coupled(store[key := store[key].(value := v)], alarms, nextId,
                    m.(items := m.items[key := m.items[key].(value := v)]))
  {
    assert Agrees(store[key], m.items[key]);
  }

  // Erasing a key leaves its entry behind in the wheels as a stale timer.
  lemma CoupleErase<K(!new), V>(store: map<K, MapValue<V>>, alarms: set<Alarm<Payload<K>>>, nextId: nat,
                                m: Cache<K, V>, key: K)
    requires Coupled(store, alarms, nextId, m)
    ensures Coupled(store - {key}, alarms, nextId, m.(items := m.items - {key}))
  {
  }

  lemma LinkTask<K(!new), V>(store: map<K, MapValue<V>>, held: set<Node<Payload<K>>>, nextId: nat, m: Cache<K, V>,
                             t: Task)
    requires Linked(store, held, nextId, m)
    ensures Linked(store, held + {Entry(nextId, RunTask(m.posted, t.token))}, nextId + 1,
                   m.(posted := m.posted + 1, tasks := m.tasks[m.posted := t]))
  {
    var e0: Node<Payload<K>> := Entry(nextId, RunTask(m.posted, t.token));
    var held' := held + {e0};
    var tasks' := m.tasks[m.posted := t];
    forall k | k in store && store[k].timeout > 0 ensures Locks(store[k], held') {
      assert Locks(store[k], held);
    }
    forall no | no in tasks' ensures TaskHeld(held', no, tasks'[no].token) {
      if no == m.posted { assert e0 in held'; } else { assert TaskHeld(held, no, m.tasks[no].token); }
    }
    forall e | e in held && e.Entry? && e.payload.RunTask? ensures e.payload.no < m.posted {}
  }

  lemma CoupleTask<K(!new), V>(store: map<K, MapValue<V>>, alarms: set<Alarm<Payload<K>>>, nextId: nat,
                               m: Cache<K, V>, token: nat, due: nat)
    requires Coupled(store, alarms, nextId, m)
    ensures Coupled(store, alarms + {Alarm(nextId, RunTask(m.posted, token), due)}, nextId + 1,
                    m.(posted := m.posted + 1, tasks := m.tasks[m.posted := Task(token, due)]))
  {
    var a0: Alarm<Payload<K>> := Alarm(nextId, RunTask(m.posted, token), due);
    HeldAdd(alarms, a0);
    LinkTask(store, Held(alarms), nextId, m, Task(token, due));
    forall a | a in alarms && a.payload.RunTask? ensures a.payload.no < m.posted {
      assert Entry(a.id, a.payload) in Held(alarms);
    }
    FreshHasNoAlarm(alarms, nextId);
    forall k | k in store && store[k].timeout > 0
      ensures IsDeadline(alarms + {a0}, store[k].weakEntry.value, m.items[k].deadline)
    {
      assert IsDeadline(alarms, store[k].weakEntry.value, m.items[k].deadline);
    }
  }

  lemma CoupledKeys<K(!new), V>(store: map<K, MapValue<V>>, alarms: set<Alarm<Payload<K>>>, nextId: nat, m: Cache<K, V>)
    requires Coupled(store, alarms, nextId, m)
    ensures store.Keys == m.items.Keys
    ensures forall k :: k in store ==> Agrees(store[k], m.items[k])
    ensures forall k :: k in store && store[k].timeout > 0 ==> Locks(store[k], Held(alarms))
  {
  }

  lemma CoupledLinks<K(!new), V>(store: map<K, MapValue<V>>, alarms: set<Alarm<Payload<K>>>, nextId: nat,
                                 m: Cache<K, V>)
    requires Coupled(store, alarms, nextId, m)
    ensures Linked(store, Held(alarms), nextId, m)
  {
  }

  lemma CoupleSpare<K(!new), V>(store: map<K, MapValue<V>>, alarms: set<Alarm<Payload<K>>>, nextId: nat, m: Cache<K, V>)
    requires Coupled(store, alarms, nextId, m)
    ensures Coupled(store, alarms, nextId + 1, m.(posted := m.posted + 1))
  {
  }

  lemma RunAfterCounts<K, V>(cfg: Config<V>, m: Cache<K, V>, log: seq<Event<K>>, delay: nat, token: nat)
    requires Sane(cfg) && multiset(log) == m.log
    ensures var m' := D.RunAfter(cfg, m, delay, token);
      && m'.now == m.now && m'.born == m.born && m'.posted == m.posted + 1
      && m'.log == multiset(if delay == 0 then log + [Ran(m.posted, token)] else log)
  {
  }

  lemma CoupleRunAfter<K(!new), V>(cfg: Config<V>, store: map<K, MapValue<V>>, alarms: set<Alarm<Payload<K>>>,
                                   nextId: nat, m: Cache<K, V>, delay: nat, token: nat)
    requires Coupled(store, alarms, nextId, m) && Sane(cfg)
    ensures Coupled(store,
                    alarms + if delay == 0 then {}
                             else {Goal(m.now, delay + 1, Entry(nextId, RunTask(m.posted, token)), cfg.w, cfg.b)},
                    nextId + 1, D.RunAfter(cfg, m, delay, token))
  {
    hide Couples;
    if delay == 0 {
      assert alarms + {} == alarms;
      CoupleSpare(store, alarms, nextId, m);
    } else {
      CoupleTask(store, alarms, nextId, m, token, Deadline(cfg, m.now, delay));
    }
  }

  // Keys whose last reference is gone, and tasks whose entry is gone.
  ghost function DeadKeys<K(!new), V>(store: map<K, MapValue<V>>, held: set<Node<Payload<K>>>): set<K> {
    set k | k in store && store[k].timeout > 0 && !Locks(store[k], held)
  }

  ghost function DeadTasks<K(!new)>(tasks: map<nat, Task>, held: set<Node<Payload<K>>>): set<nat> {
    set no | no in tasks && !TaskHeld(held, no, tasks[no].token)
  }

  ghost function StoreAfter<K(!new), V>(store: map<K, MapValue<V>>, held: set<Node<Payload<K>>>): map<K, MapValue<V>> {
    store - DeadKeys(store, held)
  }

  ghost function ModelAfter<K(!new), V>(store: map<K, MapValue<V>>, m: Cache<K, V>,
                                        held: set<Node<Payload<K>>>): Cache<K, V>
    requires store.Keys <= m.items.Keys
  {
    Released(m, DeadKeys(store, held), DeadTasks(m.tasks, held))
  }

  // While everything is held, nothing is dead.
  lemma NoneDead<K(!new), V>(store: map<K, MapValue<V>>, held: set<Node<Payload<K>>>, nextId: nat, m: Cache<K, V>)
    requires Linked(store, held, nextId, m)
    ensures store.Keys == m.items.Keys && Named(held, nextId)
    ensures StoreAfter(store, held) == store && ModelAfter(store, m, held) == m
  {
    assert DeadKeys(store, held) == {} && DeadTasks(m.tasks, held) == {};
    assert store - {} == store;
    ReleaseNothing(m);
  }

  // A bucket never holds two copies of one entry, so what the rest of it holds is something else.
  lemma BucketSplit<K(!new)>(all: set<Node<Payload<K>>>, inWheels: set<Node<Payload<K>>>, rest: Bucket<Payload<K>>,
                             e: Node<Payload<K>>, nextId: nat, b: nat)
    requires Named(all, nextId) && inWheels + rest <= all && e in rest && BucketFits(rest, 0, b)
    ensures e.Entry? && inWheels + (rest - {e}) + {e} == inWheels + rest
    ensures forall f :: f in rest - {e} ==> Core(f).id != e.id
    ensures Holds(inWheels, e.id) ==> inWheels + (rest - {e}) == inWheels + rest
  {
    if Holds(inWheels, e.id) {
      var f :| f in inWheels && f.Entry? && f.id == e.id;
      assert f in all && e in all;
      assert f == e;
    }
    forall f | f in rest - {e} ensures Core(f).id != e.id {
      assert f in all && e in all && Core(f) == f;
    }
  }

  ghost predicate OwnsKey<K(!new), V>(store: map<K, MapValue<V>>, e: Node<Payload<K>>, k: K) {
    e.Entry? && e.payload == ExpireKey(k) && k in store && store[k].timeout > 0 && store[k].weakEntry == Some(e.id)
  }

  // Dropping the last copy of one entry kills at most the key whose weak reference it is: a stale
  // entry of an erased incarnation kills nothing.
  lemma DropKills<K(!new), V>(store: map<K, MapValue<V>>, all: set<Node<Payload<K>>>, nextId: nat, m: Cache<K, V>,
                              held: set<Node<Payload<K>>>, e: Node<Payload<K>>)
    requires Linked(store, all, nextId, m) && held <= all && e in held
    ensures forall k :: k in DeadKeys(store, held - {e}) <==> k in DeadKeys(store, held) || OwnsKey(store, e, k)
    ensures forall k :: k in DeadKeys(store, held) ==> !OwnsKey(store, e, k)
    ensures forall no :: no in DeadTasks(m.tasks, held - {e}) <==>
              no in DeadTasks(m.tasks, held) || (e.payload.RunTask? && e.payload.no == no)
    ensures e.payload.RunTask? ==> e.payload.no in m.tasks && e.payload.no !in DeadTasks(m.tasks, held)
    ensures e.payload.RunTask? ==> m.tasks[e.payload.no].token == e.payload.token
  {
    forall k | k in store && store[k].timeout > 0
      ensures Locks(store[k], held - {e}) <==> Locks(store[k], held) && !OwnsKey(store, e, k)
      ensures OwnsKey(store, e, k) ==> Locks(store[k], held)
    {
      if Locks(store[k], held) && !Locks(store[k], held - {e}) {
        var f :| f in held && f.Entry? && f.id == store[k].weakEntry.value;
        assert f == e;
      }
      if Locks(store[k], held - {e}) {
        var f :| f in held - {e} && f.Entry? && f.id == store[k].weakEntry.value;
        assert !OwnsKey(store, e, k);
      }
    }
    forall no | no in m.tasks
      ensures TaskHeld(held - {e}, no, m.tasks[no].token)
              <==> TaskHeld(held, no, m.tasks[no].token) && !(e.payload.RunTask? && e.payload.no == no)
    {
      if TaskHeld(held, no, m.tasks[no].token) {
        var f :| f in held && f.Entry? && f.payload == RunTask(no, m.tasks[no].token);
        if e.payload.RunTask? && e.payload.no == no {
          assert SameTask(e, f);
          forall g | g in held - {e} && g.Entry? ensures g.payload != RunTask(no, m.tasks[no].token) {
            if g.payload == RunTask(no, m.tasks[no].token) { assert SameTask(e, g); }
          }
        } else {
          assert f in held - {e};
        }
      }
    }
  }

  // The callback of a key's entry erases the key exactly when that entry was the key's own: not when
  // the key is gone, cannot expire, or was stored again and has another entry by now.
  lemma ExpireStep<K(!new), V>(store: map<K, MapValue<V>>, all: set<Node<Payload<K>>>, nextId: nat, m: Cache<K, V>,
                               left: set<Node<Payload<K>>>, e: Node<Payload<K>>)
    requires Linked(store, all, nextId, m) && left + {e} <= all && e !in left && e.payload.ExpireKey?
    ensures var key, now := e.payload.key, StoreAfter(store, left + {e});
            var r := ModelAfter(store, m, left + {e});
            if key in now && now[key].timeout > 0 && !Locks(now[key], left) then
              && StoreAfter(store, left) == now - {key}
              && ModelAfter(store, m, left)
                 == r.(items := r.items - {key},
                   log := r.log + multiset{Expired(key, now[key].serial, now[key].callback)})
            else
              StoreAfter(store, left) == now && ModelAfter(store, m, left) == r
  {
    var key := e.payload.key;
    var was, will := DeadKeys(store, left + {e}), DeadKeys(store, left);
    assert left + {e} - {e} == left;
    DropKills(store, all, nextId, m, left + {e}, e);
    assert DeadTasks(m.tasks, left) == DeadTasks(m.tasks, left + {e});
    if OwnsKey(store, e, key) {
      assert will == was + {key};
      ReleaseKey(m, was, DeadTasks(m.tasks, left), key);
      assert store - will == store - was - {key};
    } else {
      assert will == was;
    }
  }

  lemma RunStep<K(!new), V>(store: map<K, MapValue<V>>, all: set<Node<Payload<K>>>, nextId: nat, m: Cache<K, V>,
                            left: set<Node<Payload<K>>>, e: Node<Payload<K>>)
    requires Linked(store, all, nextId, m) && left + {e} <= all && e !in left && e.payload.RunTask?
    ensures StoreAfter(store, left) == StoreAfter(store, left + {e})
    ensures var r := ModelAfter(store, m, left + {e});
            ModelAfter(store, m, left)
            == r.(tasks := r.tasks - {e.payload.no}, log := r.log + multiset{Ran(e.payload.no, e.payload.token)})
  {
    assert left + {e} - {e} == left;
    DropKills(store, all, nextId, m, left + {e}, e);
    assert DeadKeys(store, left) == DeadKeys(store, left + {e});
    assert DeadTasks(m.tasks, left) == DeadTasks(m.tasks, left + {e}) + {e.payload.no};
    ReleaseTask(m, DeadKeys(store, left), DeadTasks(m.tasks, left + {e}), e.payload.no);
  }

  // What survives is exactly what is still held.
  lemma Survivors<K(!new), V>(store: map<K, MapValue<V>>, all: set<Node<Payload<K>>>, nextId: nat, m: Cache<K, V>,
                              held: set<Node<Payload<K>>>)
    requires Linked(store, all, nextId, m) && held <= all
    ensures store.Keys == m.items.Keys
    ensures Linked(StoreAfter(store, held), held, nextId, ModelAfter(store, m, held))
  {
    var store' := store - DeadKeys(store, held);
    forall e | e in held && e.Entry? && e.payload.RunTask?
      ensures TaskHeld(held, e.payload.no, e.payload.token)
    {
    }
  }

  // When exactly the alarms due at t have left, the dead keys and tasks are the ones the model expires.
  lemma DeadIsDue<K(!new), V>(store: map<K, MapValue<V>>, before: set<Alarm<Payload<K>>>, after: set<Alarm<Payload<K>>>,
                              nextId: nat, m: Cache<K, V>, t: nat)
    requires Coupled(store, before, nextId, m) && t == m.now
    requires forall a :: a in after <==> a in before && a.due > t
    requires forall a :: a in before ==> a.due >= t
    ensures DeadKeys(store, Held(after)) == DueKeys(m)
    ensures DeadTasks(m.tasks, Held(after)) == DueTasks(m)
  {
    forall k | k in store && store[k].timeout > 0
      ensures Locks(store[k], Held(after)) <==> m.items[k].deadline != t
    {
      KeyLivesOn(store, before, after, nextId, m, t, k);
    }
    forall k | k in store ensures Agrees(store[k], m.items[k]) {}
    forall no | no in m.tasks
      ensures TaskHeld(Held(after), no, m.tasks[no].token) <==> m.tasks[no].due != t
    {
      TaskLivesOn(store, before, after, nextId, m, t, no);
    }
  }

  lemma KeyLivesOn<K(!new), V>(store: map<K, MapValue<V>>, before: set<Alarm<Payload<K>>>,
                               after: set<Alarm<Payload<K>>>,
                               nextId: nat, m: Cache<K, V>, t: nat, k: K)
    requires Coupled(store, before, nextId, m) && t == m.now && k in store && store[k].timeout > 0
    requires forall a :: a in after <==> a in before && a.due > t
    requires forall a :: a in before ==> a.due >= t
    ensures Locks(store[k], Held(after)) <==> m.items[k].deadline != t
    ensures m.items[k].deadline != t ==> IsDeadline(after, store[k].weakEntry.value, m.items[k].deadline)
  {
    var id, due := store[k].weakEntry.value, m.items[k].deadline;
    assert IsDeadline(before, id, due);
    var a :| a in before && a.id == id && a.due == due;
    if due != t {
      assert a in after && Entry(a.id, a.payload) in Held(after);
    }
  }

  lemma TaskLivesOn<K(!new), V>(store: map<K, MapValue<V>>, before: set<Alarm<Payload<K>>>,
                                after: set<Alarm<Payload<K>>>,
                                nextId: nat, m: Cache<K, V>, t: nat, no: nat)
    requires Coupled(store, before, nextId, m) && t == m.now && no in m.tasks
    requires forall a :: a in after <==> a in before && a.due > t
    requires forall a :: a in before ==> a.due >= t
    ensures TaskHeld(Held(after), no, m.tasks[no].token) <==> m.tasks[no].due != t
  {
    assert TaskHeld(Held(before), no, m.tasks[no].token);
    var e :| e in Held(before) && e.Entry? && e.payload == RunTask(no, m.tasks[no].token);
    var a :| a in before && Entry(a.id, a.payload) == e;
    if m.tasks[no].due != t {
      assert a in after && e in Held(after);
    }
  }

  lemma CoupleTick<K(!new), V>(store: map<K, MapValue<V>>, before: set<Alarm<Payload<K>>>,
                               after: set<Alarm<Payload<K>>>,
                               nextId: nat, m: Cache<K, V>, t: nat)
    requires Coupled(store, before, nextId, m) && t == m.now
    requires forall a :: a in after <==> a in before && a.due > t
    requires forall a :: a in before ==> a.due >= t
    requires Linked(StoreAfter(store, Held(after)), Held(after), nextId, ModelAfter(store, m, Held(after)))
    ensures ModelAfter(store, m, Held(after)) == Released(m, DueKeys(m), DueTasks(m))
    ensures Coupled(StoreAfter(store, Held(after)), after, nextId, ModelAfter(store, m, Held(after)))
  {
    DeadIsDue(store, before, after, nextId, m, t);
    var store' := StoreAfter(store, Held(after));
    var m' := ModelAfter(store, m, Held(after));
    forall k | k in store' && store'[k].timeout > 0
      ensures IsDeadline(after, store'[k].weakEntry.value, m'.items[k].deadline)
    {
      KeyLivesOn(store, before, after, nextId, m, t, k);
    }
  }

  // Releasing in two goes comes to the same as releasing at once.
  lemma AfterTwice<K(!new), V>(m: Cache<K, V>, more: set<Node<Payload<K>>>, less: set<Node<Payload<K>>>)
    requires less <= more && m.items == map[]
    ensures var none: map<K, MapValue<V>> := map[];
      ModelAfter(none, ModelAfter(none, m, more), less) == ModelAfter(none, m, less)
  {
    var none: map<K, MapValue<V>> := map[];
    assert DeadKeys(none, more) == {} && DeadKeys(none, less) == {};
    var first := DeadTasks(m.tasks, more);
    var rest := DeadTasks(m.tasks - first, less);
    forall no | no in m.tasks && TaskHeld(less, no, m.tasks[no].token) ensures TaskHeld(more, no, m.tasks[no].token) {
      var e :| e in less && e.Entry? && e.payload == RunTask(no, m.tasks[no].token);
      assert e in more;
    }
    assert DeadTasks(m.tasks, less) == first + rest;
    ReleaseMoreTasks(m, first, rest);
  }

  lemma NoStoreLeft<K(!new), V>(m: Cache<K, V>, held: set<Node<Payload<K>>>)
    ensures var none: map<K, MapValue<V>> := map[]; StoreAfter(none, held) == none
  {
  }

  lemma AfterAll<K(!new), V>(m: Cache<K, V>)
    requires m.items == map[]
    ensures var none: map<K, MapValue<V>> := map[]; ModelAfter(none, m, {}) == Released(m, {}, m.tasks.Keys)
  {
    var none: map<K, MapValue<V>> := map[];
    var nobody: set<Node<Payload<K>>> := {};
    assert DeadKeys(none, nobody) == {};
    assert DeadTasks(m.tasks, nobody) == m.tasks.Keys;
  }

  lemma ForgetKeys<K(!new), V>(store: map<K, MapValue<V>>, held: set<Node<Payload<K>>>, nextId: nat, m: Cache<K, V>)
    requires Linked(store, held, nextId, m)
    ensures Linked(map[], held, nextId, m.(items := map[]))
    ensures ModelAfter(map[], m.(items := map[]), held) == m.(items := map[])
  {
    var none: map<K, MapValue<V>> := map[];
    NoneDead(none, held, nextId, m.(items := map[]));
  }

  class CacheMap<K(==,!new), V(!new)> {
    const cfg: Config<V>

    var map_: map<K, MapValue<V>>
    var wheels_: seq<Wheel<Payload<K>>>
    var ticksCounter_: nat
    // How many callback entries, stored nodes and tasks were ever created: names for heap objects.
    var nextId: nat
    var nextSerial: nat
    var nextTask: nat
    // The user callbacks invoked so far.
    var log: seq<Event<K>>

    ghost var model: Cache<K, V>

    ghost predicate WheelsOk()
      reads this
    {
      WheelsFit(wheels_, cfg.w, cfg.b)
    }

    ghost function Alarms(): set<Alarm<Payload<K>>>
      requires WheelsOk()
      reads this
    {
      Pending(wheels_, CountsAt(ticksCounter_, cfg.w, cfg.b), cfg.b)
    }

    ghost predicate Bookkeeping()
      reads this
    {
      && model.now == ticksCounter_
      && model.born == nextSerial
      && model.posted == nextTask
      && multiset(log) == model.log
    }

    ghost predicate Valid()
      reads this
    {
      && WheelsOk()
      && Bookkeeping()
      && Coupled(map_, Alarms(), nextId, model)
      && (forall a :: a in Alarms() ==> a.due > ticksCounter_)
    }

    constructor (w: nat, b: nat, dflt: V)
      requires w > 0 && b > 0
      ensures Valid()
      ensures cfg == Config(w, b, dflt) && model == Empty() && log == []
    {
      cfg := Config(w, b, dflt);
      map_ := map[];
      var wheel: Wheel<Payload<K>> := seq(b, _ => {});
      wheels_ := seq(w, _ => wheel);
      ticksCounter_, nextId, nextSerial, nextTask := 0, 0, 0, 0;
      log := [];
      model := Empty();
    }

    method InsertEntry(delay: nat, entry: Node<Payload<K>>)
      requires WheelsOk() && entry.Entry?
      modifies this`wheels_
      ensures WheelsOk()
      ensures Alarms() == old(Alarms()) +
        if delay == 0 then {} else {Goal(ticksCounter_, delay + 1, entry, cfg.w, cfg.b)}
    {
      if delay <= 0 {
        return;
      }
      var d: nat := delay + 1;
      var t: nat := ticksCounter_;
      var node := entry;
      var i := 0;
      while i < cfg.w
        invariant 0 <= i <= cfg.w
        invariant i < cfg.w ==> wheels_ == old(wheels_)
        invariant i < cfg.w ==> Lifted(ticksCounter_, delay + 1, entry, cfg.w, cfg.b, i, d, t, node)
        invariant i == cfg.w ==>
          WheelsOk() && Alarms() == old(Alarms()) + {Goal(ticksCounter_, delay + 1, entry, cfg.w, cfg.b)}
      {
        if d <= cfg.b {
          LiftedPut(wheels_, ticksCounter_, delay + 1, entry, cfg.w, cfg.b, i, d, t, node);
          wheels_ := Put(wheels_, i, d - 1, node);
          break;
        }
        if i < cfg.w - 1 {
          LiftedStep(ticksCounter_, delay + 1, entry, cfg.w, cfg.b, i, d, t, node);
          node := Wrap(i, NextSlot(d, t, cfg.b), node);
        } else {
          LiftedPut(wheels_, ticksCounter_, delay + 1, entry, cfg.w, cfg.b, i, d, t, node);
          wheels_ := Put(wheels_, i, cfg.b - 1, node);
        }
        d, t := NextDelay(d, t, cfg.b), NextPhase(t, cfg.b);
        i := i + 1;
      }
    }

    // Renew the entry of a key, or give the key a new one if none can be locked any more.
    method EraseAfter(delay: nat, key: K)
      requires WheelsOk() && key in map_ && delay > 0
      modifies this`map_, this`wheels_, this`nextId
      ensures WheelsOk()
      ensures old(Locks(map_[key], Held(Alarms()))) ==>
        && map_ == old(map_) && nextId == old(nextId)
        && Alarms() == old(Alarms()) +
             {Alarm(old(map_)[key].weakEntry.value, ExpireKey(key), Deadline(cfg, ticksCounter_, delay))}
      ensures !old(Locks(map_[key], Held(Alarms()))) ==>
        && map_ == old(map_)[key := old(map_)[key].(weakEntry := Some(old(nextId)))] && nextId == old(nextId) + 1
        && Alarms() == old(Alarms()) + {Alarm(old(nextId), ExpireKey(key), Deadline(cfg, ticksCounter_, delay))}
    {
      var weak := map_[key].weakEntry;
      if weak.Some? {
        ReferencedIffHeld(wheels_, CountsAt(ticksCounter_, cfg.w, cfg.b), cfg.b, weak.value);
      }
      if weak.Some? && Referenced(wheels_, weak.value) {
        InsertEntry(delay, Entry(weak.value, ExpireKey(key)));
      } else {
        var id := nextId;
        nextId := nextId + 1;
        map_ := map_[key := map_[key].(weakEntry := Some(id))];
        InsertEntry(delay, Entry(id, ExpireKey(key)));
      }
    }

    // The access part shared by every lookup: the key's own timeout renews its life.
    method Renew(delay: nat, key: K)
      requires Valid() && key in map_ && delay > 0
      modifies this`map_, this`wheels_, this`nextId, this`model
      ensures Valid() && model == Touch(cfg, old(model), key, delay)
    {
      hide Couples;
      hide Pending;
      CoupledKeys(map_, Alarms(), nextId, model);
      ghost var store, alarms, due := map_, Alarms(), Deadline(cfg, ticksCounter_, delay);
      EraseAfter(delay, key);
      if Locks(store[key], Held(alarms)) {
        CoupleTouch(store, alarms, nextId, model, key, due);
      } else {
        CoupleFresh(store, alarms, nextId - 1, model, key, store[key], model.items[key], due);
        assert model.items[key := model.items[key]] == model.items;
      }
      model := Touch(cfg, model, key, delay);
    }

    // Store a node under a key that is absent, with a timer if it can expire.
    method Create(key: K, value: V, timeout: nat, callback: Option<nat>)
      requires Valid() && key !in map_
      modifies this`map_, this`wheels_, this`nextId, this`nextSerial, this`model
      ensures Valid() && model == D.Create(cfg, old(model), key, value, timeout, callback)
    {
      hide Couples;
      hide Pending;
      CoupledKeys(map_, Alarms(), nextId, model);
      ghost var store, alarms, due := map_, Alarms(), Deadline(cfg, ticksCounter_, timeout);
      var v := MapValue(value, timeout, callback, nextSerial, None);
      ghost var it := Item(value, timeout, callback, nextSerial, due);
      nextSerial := nextSerial + 1;
      map_ := map_[key := v];
      if timeout > 0 {
        EraseAfter(timeout, key);
        CoupleFresh(store, alarms, nextId - 1, model, key, v, it, due);
        assert map_ == store[key := v.(weakEntry := Some(nextId - 1))];
      } else {
        CoupleStore(store, alarms, nextId, model, key, v, it);
      }
      model := D.Create(cfg, model, key, value, timeout, callback);
    }

    method Insert(key: K, value: V, timeout: nat, timeoutCallback: Option<nat>)
      requires Valid()
      modifies this
      ensures Valid() && model == D.Insert(cfg, old(model), key, value, timeout, timeoutCallback)
    {
      hide Couples, WheelsFit;
      hide Pending;
      CoupledKeys(map_, Alarms(), nextId, model);
      if key !in map_ {
        Create(key, value, timeout, if timeout > 0 then timeoutCallback else None);
      } else if timeout > 0 {
        Renew(timeout, key);
      }
      log := log + [Inserted(key)];
      model := Note(model, Inserted(key));
    }

    // operator[]
    method Index(key: K) returns (value: V)
      requires Valid()
      modifies this
      ensures Valid() && model == Access(cfg, old(model), key)
      ensures value == if key in old(model).items then old(model).items[key].value else cfg.dflt
    {
      hide Couples;
      hide Pending;
      CoupledKeys(map_, Alarms(), nextId, model);
      if key in map_ {
        var timeout := map_[key].timeout;
        value := map_[key].value;
        if timeout > 0 {
          Renew(timeout, key);
        }
      } else {
        value := cfg.dflt;
      }
    }

    method Modify(key: K, handler: V -> V, timeout: nat)
      requires Valid()
      modifies this
      ensures Valid() && model == D.Modify(cfg, old(model), key, handler, timeout)
    {
      hide Couples;
      hide Pending;
      CoupledKeys(map_, Alarms(), nextId, model);
      if key in map_ {
        var timeout' := map_[key].timeout;
        CoupleValue(map_, Alarms(), nextId, model, key, handler(map_[key].value));
        model := model.(items := model.items[key := model.items[key].(value := handler(map_[key].value))]);
        map_ := map_[key := map_[key].(value := handler(map_[key].value))];
        if timeout' > 0 {
          Renew(timeout', key);
        }
        return;
      }
      Create(key, handler(cfg.dflt), timeout, None);
      log := log + [Inserted(key)];
      model := Note(model, Inserted(key));
    }

    method Find(key: K) returns (flag: bool)
      requires Valid()
      modifies this
      ensures Valid() && model == Access(cfg, old(model), key)
      ensures flag <==> key in old(model).items
    {
      hide Couples;
      hide Pending;
      CoupledKeys(map_, Alarms(), nextId, model);
      var timeout := 0;
      flag := false;
      if key in map_ {
        timeout := map_[key].timeout;
        flag := true;
      }
      if timeout > 0 {
        Renew(timeout, key);
      }
    }

    method FindAndFetch(key: K) returns (fetched: Option<V>)
      requires Valid()
      modifies this
      ensures Valid() && model == Access(cfg, old(model), key)
      ensures fetched == if key in old(model).items then Some(old(model).items[key].value) else None
    {
      hide Couples;
      hide Pending;
      CoupledKeys(map_, Alarms(), nextId, model);
      var timeout := 0;
      fetched := None;
      if key in map_ {
        timeout := map_[key].timeout;
        fetched := Some(map_[key].value);
      }
      if timeout > 0 {
        Renew(timeout, key);
      }
    }

    method Erase(key: K)
      requires Valid()
      modifies this
      ensures Valid() && model == D.Erase(old(model), key)
    {
      hide Couples;
      hide Pending;
      CoupleErase(map_, Alarms(), nextId, model, key);
      map_ := map_ - {key};
      log := log + [Erased(key)];
      model := D.Erase(model, key);
    }

    // With delay 0 the entry is dropped on the spot, so its function runs before this returns.
    method RunAfter(delay: nat, token: nat)
      requires Valid()
      modifies this
      ensures Valid() && model == D.RunAfter(cfg, old(model), delay, token)
    {
      hide Couples, Pending, D.RunAfter;
      var id, no := nextId, nextTask;
      RunAfterCounts(cfg, model, log, delay, token);
      nextId, nextTask := nextId + 1, nextTask + 1;
      CoupleRunAfter(cfg, map_, Alarms(), id, model, delay, token);
      InsertEntry(delay, Entry(id, RunTask(no, token)));
      model := D.RunAfter(cfg, model, delay, token);
      if delay == 0 {
        log := log + [Ran(no, token)];
      }
    }

    // Can a weak reference to entry `id` be locked, the entries of a bucket under destruction included?
    predicate Lockable(id: nat, rest: Bucket<Payload<K>>)
      reads this
    {
      Referenced(wheels_, id) || exists f | f in rest :: Core(f).id == id
    }

    // The progress of a bucket's destruction: `held` is what the wheels and the rest of the bucket hold.
    ghost predicate Progress(store: map<K, MapValue<V>>, m: Cache<K, V>, held: set<Node<Payload<K>>>)
      reads this
    {
      && store.Keys <= m.items.Keys
      && map_ == StoreAfter(store, held)
      && model == ModelAfter(store, m, held)
      && multiset(log) == model.log
    }

    // The destructor of an entry whose last copy is gone.
    method RunCallback(e: Node<Payload<K>>, rest: Bucket<Payload<K>>, ghost counts: seq<nat>,
                       ghost store: map<K, MapValue<V>>, ghost m: Cache<K, V>, ghost all: set<Node<Payload<K>>>)
      requires |counts| == |wheels_| && Fitting(wheels_, cfg.b) && BucketFits(rest, 0, cfg.b) && e.Entry?
      requires Linked(store, all, nextId, m)
      requires e in all && Held(Pending(wheels_, counts, cfg.b)) + rest <= all
      requires !Lockable(e.id, rest)
      requires Progress(store, m, Held(Pending(wheels_, counts, cfg.b)) + rest + {e})
      modifies this`map_, this`log, this`model
      ensures Progress(store, m, Held(Pending(wheels_, counts, cfg.b)) + rest)
    {
      hide Links;
      hide DeadKeys;
      hide DeadTasks;
      hide Pending;
      hide Held;
      hide Fitting;
      hide Referenced;
      hide StoreAfter;
      hide ModelAfter;
      ghost var left := Held(Pending(wheels_, counts, cfg.b)) + rest;
      LockableIffHeld(e.id, rest, counts);
      match e.payload {
        case ExpireKey(key) =>
          ExpireStep(store, all, nextId, m, left, e);
          if key in map_ {
            var v := map_[key];
            if v.weakEntry.Some? { LockableIffHeld(v.weakEntry.value, rest, counts); }
            var locked := v.weakEntry.Some? && Lockable(v.weakEntry.value, rest);
            if v.timeout > 0 && !locked {
              map_ := map_ - {key};
              log := log + [Expired(key, v.serial, v.callback)];
            }
          }
        case RunTask(no, token) =>
          RunStep(store, all, nextId, m, left, e);
          log := log + [Ran(no, token)];
      }
      model := ModelAfter(store, m, left);
    }

    lemma LockableIffHeld(id: nat, rest: Bucket<Payload<K>>, counts: seq<nat>)
      requires |counts| == |wheels_| && Fitting(wheels_, cfg.b) && BucketFits(rest, 0, cfg.b)
      ensures Lockable(id, rest) <==> Holds(Held(Pending(wheels_, counts, cfg.b)) + rest, id)
    {
      ReferencedIffHeld(wheels_, counts, cfg.b, id);
      if Lockable(id, rest) && !Referenced(wheels_, id) {
        var f :| f in rest && Core(f).id == id;
        assert f in Held(Pending(wheels_, counts, cfg.b)) + rest;
      }
    }

    // Destroy the bucket that left wheel 0: an entry runs its callback when no copy of it is left.
    method FireEntries(tmp: Bucket<Payload<K>>, ghost counts: seq<nat>)
      requires |counts| == |wheels_| && Fitting(wheels_, cfg.b) && BucketFits(tmp, 0, cfg.b)
      requires Linked(map_, Held(Pending(wheels_, counts, cfg.b)) + tmp, nextId, model)
      requires multiset(log) == model.log
      modifies this`map_, this`log, this`model
      ensures var held := Held(Pending(wheels_, counts, cfg.b));
        Progress(old(map_), old(model), held) && Linked(map_, held, nextId, model)
    {
      hide Links;
      hide DeadKeys;
      hide DeadTasks;
      hide Held;
      hide Named;
      hide StoreAfter;
      hide ModelAfter;
      ghost var inWheels := Held(Pending(wheels_, counts, cfg.b));
      ghost var all, store, m := inWheels + tmp, map_, model;
      NoneDead(store, all, nextId, m);
      var rest := tmp;
      while rest != {}
        invariant rest <= tmp
        invariant Progress(store, m, inWheels + rest)
      {
        var e :| e in rest;
        BucketSplit(all, inWheels, rest, e, nextId, cfg.b);
        ReferencedIffHeld(wheels_, counts, cfg.b, e.id);
        rest := rest - {e};
        if !Referenced(wheels_, e.id) {
          RunCallback(e, rest, counts, store, m, all);
        }
      }
      assert inWheels + rest == inWheels;
      Survivors(store, all, nextId, m, inWheels);
    }

    // Destroy a bucket that left wheel i > 0: every wrapper drops its content into wheel i - 1, where it
    // will be released when it was due all along.
    method DropWrappers(tmp: Bucket<Payload<K>>, i: nat, ghost counts: seq<nat>, ghost c: nat)
      requires 0 < i < |wheels_| == |counts| && cfg.b > 0
      requires Fitting(wheels_, cfg.b) && BucketFits(tmp, i, cfg.b) && |wheels_[i - 1]| == cfg.b
      modifies this`wheels_
      ensures SameShape(wheels_, old(wheels_), i - 1) && Fitting(wheels_, cfg.b)
      ensures Held(Pending(wheels_, counts, cfg.b)) == old(Held(Pending(wheels_, counts, cfg.b))) + Cores(tmp)
      ensures counts[i - 1] == c * cfg.b ==>
        Pending(wheels_, counts, cfg.b) == old(Pending(wheels_, counts, cfg.b)) + Leaving(tmp, i, c, cfg.b)
    {
      var rest := tmp;
      while rest != {}
        invariant rest <= tmp
        invariant SameShape(wheels_, old(wheels_), i - 1) && Fitting(wheels_, cfg.b)
        invariant Held(Pending(wheels_, counts, cfg.b))
          == old(Held(Pending(wheels_, counts, cfg.b))) + Cores(tmp - rest)
        invariant counts[i - 1] == c * cfg.b ==>
          Pending(wheels_, counts, cfg.b) == old(Pending(wheels_, counts, cfg.b)) + Leaving(tmp - rest, i, c, cfg.b)
      {
        hide Pending;
        hide Held;
        hide Leaving;
        hide Cores;
        hide Fitting;
        hide Fits;
        var n :| n in rest;
        DropOne(wheels_, counts, i, n, c, cfg.b);
        DoneGrows(tmp, rest, n, i, c, cfg.b);
        rest := rest - {n};
        wheels_ := Put(wheels_, i - 1, n.slot, n.inner);
      }
      assert tmp - rest == tmp;
    }

    // Wheel i > 0 shifts: its front bucket moves down one wheel and no alarm changes.
    method ShiftUpper(i: nat, ghost counts: seq<nat>)
      requires WheelsOk() && 0 < i < cfg.w && |counts| == cfg.w
      requires counts[i - 1] == (counts[i] + 1) * cfg.b
      modifies this`wheels_
      ensures WheelsOk()
      ensures Pending(wheels_, counts[i := counts[i] + 1], cfg.b) == old(Pending(wheels_, counts, cfg.b))
    {
      hide Pending;
      hide Leaving;
      var tmp := wheels_[i][0];
      PopKeepsAlarms(wheels_, counts, i, cfg.b);
      wheels_ := Pop(wheels_, i);
      PushKeepsAlarms(wheels_, counts[i := counts[i] + 1], i, cfg.b);
      wheels_ := PushEmpty(wheels_, i);
      DropWrappers(tmp, i, counts[i := counts[i] + 1], counts[i] + 1);
    }

    // Wheel 0 shifts: the entries of its front bucket are released.
    method ShiftBottom(t: nat)
      requires WheelsOk() && t > 0
      requires Linked(map_, Held(Pending(wheels_, CountsDuring(t, cfg.w, cfg.b, 0), cfg.b)), nextId, model)
      requires multiset(log) == model.log
      modifies this`wheels_, this`map_, this`log, this`model
      ensures WheelsOk()
      ensures var before := old(Pending(wheels_, CountsDuring(t, cfg.w, cfg.b, 0), cfg.b));
        var after := Pending(wheels_, CountsDuring(t, cfg.w, cfg.b, 1), cfg.b);
        && (forall a :: a in after <==> a in before && a.due > t)
        && (forall a :: a in before ==> a.due >= t)
        && Progress(old(map_), old(model), Held(after)) && Linked(map_, Held(after), nextId, model)
    {
      hide Pending;
      hide Leaving;
      hide Held;
      hide Links;
      hide StoreAfter;
      hide ModelAfter;
      ghost var counts, counts' := CountsDuring(t, cfg.w, cfg.b, 0), CountsDuring(t, cfg.w, cfg.b, 1);
      CountsDuringStep(t, cfg.w, cfg.b, 0);
      assert counts'[0] == t / Pow(cfg.b, 0);
      ghost var before := Pending(wheels_, counts, cfg.b);
      var tmp := wheels_[0][0];
      PopKeepsAlarms(wheels_, counts, 0, cfg.b);
      wheels_ := Pop(wheels_, 0);
      PushKeepsAlarms(wheels_, counts', 0, cfg.b);
      wheels_ := PushEmpty(wheels_, 0);
      BottomSplitsByDue(wheels_, tmp, t, cfg.w, cfg.b, before);
      FireEntries(tmp, counts');
    }

    // Tick t in progress, the first i wheels done: once wheel 0 is, exactly the alarms due at t are gone.
    ghost predicate MidTick(t: nat, i: nat, before: set<Alarm<Payload<K>>>, store: map<K, MapValue<V>>, m: Cache<K, V>)
      requires t > 0
      reads this
    {
      && WheelsOk()
      && (forall a :: a in before ==> a.due >= t)
      && var after := Pending(wheels_, CountsDuring(t, cfg.w, cfg.b, i), cfg.b);
         if i == 0 then
           after == before && map_ == store && model == m && multiset(log) == model.log
             && Linked(map_, Held(before), nextId, m)
         else
           && (forall a :: a in after <==> a in before && a.due > t)
           && Progress(store, m, Held(after)) && Linked(map_, Held(after), nextId, model)
    }

    method ShiftWheel(t: nat, i: nat, pow: nat, ghost before: set<Alarm<Payload<K>>>, ghost store: map<K, MapValue<V>>,
                      ghost m: Cache<K, V>)
      requires t > 0 && WheelsOk() && i < cfg.w && pow == Pow(cfg.b, i)
      requires MidTick(t, i, before, store, m)
      modifies this`wheels_, this`map_, this`log, this`model
      ensures WheelsOk() && MidTick(t, i + 1, before, store, m)
    {
      hide Links;
      hide Pending;
      hide Held;
      hide StoreAfter;
      hide ModelAfter;
      CountsDuringStep(t, cfg.w, cfg.b, i);
      if t % pow == 0 {
        if i == 0 {
          ShiftBottom(t);
        } else {
          ShiftUpper(i, CountsDuring(t, cfg.w, cfg.b, i));
        }
      }
    }

    lemma StartTick(t: nat, before: set<Alarm<Payload<K>>>, store: map<K, MapValue<V>>, m: Cache<K, V>)
      requires WheelsOk() && t == ticksCounter_ == m.now && t > 0
      requires before == Pending(wheels_, CountsAt(t - 1, cfg.w, cfg.b), cfg.b)
      requires forall a :: a in before ==> a.due > t - 1
      requires map_ == store && model == m && multiset(log) == model.log && Coupled(store, before, nextId, m)
      ensures MidTick(t, 0, before, store, m)
    {
      CountsDuringEnds(t, cfg.w, cfg.b);
    }

    lemma FinishTick(t: nat, before: set<Alarm<Payload<K>>>, store: map<K, MapValue<V>>, m: Cache<K, V>)
      requires WheelsOk() && t == ticksCounter_ == m.now && t > 0
      requires MidTick(t, cfg.w, before, store, m) && Coupled(store, before, nextId, m)
      ensures model == D.Released(m, DueKeys(m), DueTasks(m)) && multiset(log) == model.log
      ensures Coupled(map_, Alarms(), nextId, model) && forall a :: a in Alarms() ==> a.due > t
    {
      hide Links;
      hide Couples;
      hide Pending;
      hide Held;
      hide StoreAfter;
      hide ModelAfter;
      CountsDuringEnds(t, cfg.w, cfg.b);
      CoupleTick(store, before, Alarms(), nextId, m, t);
    }

    // The timer's callback: the tick counter moves on first, then the wheels shift from the bottom up.
    method Tick()
      requires Valid()
      modifies this
      ensures Valid() && model == D.Tick(old(model))
    {
      hide Couples;
      hide MidTick;
      hide Pending;
      hide WheelsFit;
      ghost var store, before := map_, Alarms();
      ticksCounter_ := ticksCounter_ + 1;
      var t := ticksCounter_;
      model := model.(now := t);
      ghost var m := model;
      StartTick(t, before, store, m);
      var pow := 1;
      var i := 0;
      while i < cfg.w
        invariant 0 <= i <= cfg.w && pow == Pow(cfg.b, i)
        invariant ticksCounter_ == t && nextId == old(nextId) && nextSerial == old(nextSerial)
          && nextTask == old(nextTask)
        invariant WheelsOk() && MidTick(t, i, before, store, m)
      {
        ShiftWheel(t, i, pow, before, store, m);
        pow := pow * cfg.b;
        i := i + 1;
      }
      FinishTick(t, before, store, m);
    }

    // Destruction in progress: the wheels above `top` are gone, the ones below it still have all their
    // buckets, and the tasks released so far are those that no wheel holds any more.
    ghost predicate Draining(top: nat, counts: seq<nat>, m: Cache<K, V>)
      reads this
    {
      && cfg.b > 0 && |wheels_| == cfg.w == |counts| && top < cfg.w && Fitting(wheels_, cfg.b)
      && (forall j: nat :: j < top ==> |wheels_[j]| == cfg.b)
      && (forall j: nat :: top < j < cfg.w ==> wheels_[j] == [])
      && map_ == map[] && m.items == map[] && multiset(log) == model.log
      && var held := Held(Pending(wheels_, counts, cfg.b));
         Linked(map_, held, nextId, model) && model == ModelAfter(map[], m, held)
    }

    // One bucket of the wheel under destruction.
    method DrainBucket(top: nat, ghost counts: seq<nat>, ghost m: Cache<K, V>)
      requires Draining(top, counts, m) && |wheels_[top]| > 0
      modifies this`wheels_, this`log, this`model, this`map_
      ensures Draining(top, counts, m) && |wheels_[top]| == |old(wheels_)[top]| - 1
    {
      hide Links;
      hide Pending;
      hide Held;
      hide Cores;
      hide ModelAfter;
      PopHeld(wheels_, counts, top, cfg.b);
      var tmp := wheels_[top][0];
      wheels_ := Pop(wheels_, top);
      if top > 0 {
        DropWrappers(tmp, top, counts, 0);
      } else {
        BottomCores(tmp, cfg.b);
        ghost var held, held' := Held(Pending(wheels_, counts, cfg.b)) + tmp, Held(Pending(wheels_, counts, cfg.b));
        FireEntries(tmp, counts);
        NoStoreLeft(m, held');
        AfterTwice(m, held, held');
      }
    }

    // The destructor: keys are forgotten without any callback, then the wheels are cleared from the top
    // down, so a wrapper never drops its content into a wheel that is gone already.
    method Destruct()
      requires Valid()
      modifies this
      ensures model == D.Destroy(old(model)) && multiset(log) == model.log
      ensures map_ == map[] && forall j: nat :: j < |wheels_| ==> wheels_[j] == []
    {
      hide Links;
      hide Pending;
      hide Held;
      hide ModelAfter;
      ghost var counts := CountsAt(ticksCounter_, cfg.w, cfg.b);
      CoupledLinks(map_, Alarms(), nextId, model);
      ForgetKeys(map_, Held(Alarms()), nextId, model);
      map_ := map[];
      model := model.(items := map[]);
      ghost var m := model;
      var i := cfg.w;
      while i > 0
        invariant 0 <= i <= cfg.w && |wheels_| == cfg.w
        invariant i > 0 ==> Draining(i - 1, counts, m) && |wheels_[i - 1]| == cfg.b
        invariant i == 0 ==> Draining(0, counts, m) && wheels_[0] == []
      {
        i := i - 1;
        while |wheels_[i]| > 0
          invariant Draining(i, counts, m)
          decreases |wheels_[i]|
        {
          DrainBucket(i, counts, m);
        }
      }
      NothingHeld(wheels_, counts, cfg.b);
      AfterAll(m);
    }
  }
}
