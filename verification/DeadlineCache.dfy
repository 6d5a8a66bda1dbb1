/**
  What the expiring cache promises: a map with one deadline per key, and a list of tasks with one
  deadline each.  There are no wheels, buckets, wrappers or weak references here.
*/
module DeadlineCache {
  import opened Basics
  import opened TimingWheel

  // `serial` numbers the stored map nodes, so two incarnations of one key can be told apart.
  // `deadline` matters only when timeout > 0.
  datatype Item<V> = Item(value: V, timeout: nat, callback: Option<nat>, serial: nat, deadline: nat)

  datatype Task = Task(token: nat, due: nat)

  // The user callbacks the cache invokes.  Expired stands for the erase hook followed by the timeout
  // callback of that incarnation.
  datatype Event<K> =
    | Inserted(key: K)
    | Erased(key: K)
    | Expired(key: K, serial: nat, callback: Option<nat>)
    | Ran(no: nat, token: nat)

  datatype Cache<K, V> = Cache(
    now: nat,
    born: nat,
    posted: nat,
    items: map<K, Item<V>>,
    tasks: map<nat, Task>,
    log: multiset<Event<K>>)

  // The number of wheels, the buckets per wheel, and the value T2() of an absent key.
  datatype Config<V> = Config(w: nat, b: nat, dflt: V)

  ghost predicate Sane<V>(cfg: Config<V>) {
    cfg.w > 0 && cfg.b > 0
  }

  function Empty<K, V>(): Cache<K, V> {
    Cache(0, 0, 0, map[], map[], multiset{})
  }

  function Deadline<V>(cfg: Config<V>, now: nat, delay: nat): nat
    requires Sane(cfg)
  {
    FireTick(now, delay + 1, cfg.w, cfg.b)
  }

  // An access with a given timeout: life is only ever extended, and only for keys that can expire.
  function Touch<K, V>(cfg: Config<V>, c: Cache<K, V>, key: K, timeout: nat): Cache<K, V>
    requires Sane(cfg) && key in c.items
  {
    var it := c.items[key];
    if it.timeout == 0 || timeout == 0 then c
    else c.(items := c.items[key := it.(deadline := Max(it.deadline, Deadline(cfg, c.now, timeout)))])
  }

  function Access<K, V>(cfg: Config<V>, c: Cache<K, V>, key: K): Cache<K, V>
    requires Sane(cfg)
  {
    if key in c.items then Touch(cfg, c, key, c.items[key].timeout) else c
  }

  function Create<K, V>(cfg: Config<V>, c: Cache<K, V>, key: K, value: V, timeout: nat,
                        callback: Option<nat>): Cache<K, V>
    requires Sane(cfg)
  {
    var it := Item(value, timeout, callback, c.born, Deadline(cfg, c.now, timeout));
    c.(items := c.items[key := it], born := c.born + 1)
  }

  function Note<K, V>(c: Cache<K, V>, e: Event<K>): Cache<K, V> {
    c.(log := c.log + multiset{e})
  }

  // Put-if-absent: an existing value and its timeout stay, but the given timeout counts as an access.
  function Insert<K, V>(cfg: Config<V>, c: Cache<K, V>, key: K, value: V, timeout: nat,
                        callback: Option<nat>): Cache<K, V>
    requires Sane(cfg)
  {
    var c' := if key in c.items then Touch(cfg, c, key, timeout)
              else Create(cfg, c, key, value, timeout, if timeout > 0 then callback else None);
    Note(c', Inserted(key))
  }

  function Modify<K, V>(cfg: Config<V>, c: Cache<K, V>, key: K, handler: V -> V, timeout: nat): Cache<K, V>
    requires Sane(cfg)
  {
    if key in c.items then
      var it := c.items[key];
      Touch(cfg, c.(items := c.items[key := it.(value := handler(it.value))]), key, it.timeout)
    else
      Note(Create(cfg, c, key, handler(cfg.dflt), timeout, None), Inserted(key))
  }

  function Erase<K, V>(c: Cache<K, V>, key: K): Cache<K, V> {
    Note(c.(items := c.items - {key}), Erased(key))
  }

  function RunAfter<K, V>(cfg: Config<V>, c: Cache<K, V>, delay: nat, token: nat): Cache<K, V>
    requires Sane(cfg)
  {
    var c' := c.(posted := c.posted + 1);
    if delay == 0 then Note(c', Ran(c.posted, token))
    else c'.(tasks := c.tasks[c.posted := Task(token, Deadline(cfg, c.now, delay))])
  }

  predicate KeyDue<K, V>(c: Cache<K, V>, key: K)
    requires key in c.items
  {
    c.items[key].timeout > 0 && c.items[key].deadline == c.now
  }

  ghost function KeyEvents<K, V>(c: Cache<K, V>, keys: set<K>): set<Event<K>>
    requires keys <= c.items.Keys
  {
    set k | k in keys :: Expired(k, c.items[k].serial, c.items[k].callback)
  }

  ghost function TaskEvents<K, V>(c: Cache<K, V>, nos: set<nat>): set<Event<K>>
    requires nos <= c.tasks.Keys
  {
    set no | no in nos :: Ran(no, c.tasks[no].token)
  }

  ghost function DueKeys<K, V>(c: Cache<K, V>): set<K> {
    set k | k in c.items && KeyDue(c, k)
  }

  ghost function DueTasks<K, V>(c: Cache<K, V>): set<nat> {
    set no | no in c.tasks && c.tasks[no].due == c.now
  }

  // What is left once the given keys expired and the given tasks ran.
  ghost function Released<K, V>(c: Cache<K, V>, keys: set<K>, nos: set<nat>): Cache<K, V>
    requires keys <= c.items.Keys && nos <= c.tasks.Keys
  {
    c.(items := c.items - keys, tasks := c.tasks - nos,
       log := c.log + multiset(KeyEvents(c, keys)) + multiset(TaskEvents(c, nos)))
  }

  // A tick removes exactly the keys whose deadline is the new tick and runs exactly the tasks due.
  ghost function Tick<K, V>(c: Cache<K, V>): Cache<K, V> {
    var m := c.(now := c.now + 1);
    Released(m, DueKeys(m), DueTasks(m))
  }

  // Destruction forgets the keys silently and runs every task that is still waiting.
  ghost function Destroy<K, V>(c: Cache<K, V>): Cache<K, V> {
    Released(c.(items := map[]), {}, c.tasks.Keys)
  }

  lemma ReleaseNothing<K, V>(c: Cache<K, V>)
    ensures Released(c, {}, {}) == c
  {
    assert c.items - {} == c.items && c.tasks - {} == c.tasks;
  }

  lemma MultisetGrows<T>(s: set<T>, x: T)
    requires x !in s
    ensures multiset(s + {x}) == multiset(s) + multiset{x}
  {
  }

  lemma ReleaseKey<K, V>(c: Cache<K, V>, keys: set<K>, nos: set<nat>, key: K)
    requires keys <= c.items.Keys && nos <= c.tasks.Keys && key in c.items && key !in keys
    ensures var r := Released(c, keys, nos);
            Released(c, keys + {key}, nos)
            == r.(items := r.items - {key},
                  log := r.log + multiset{Expired(key, c.items[key].serial, c.items[key].callback)})
  {
    var e := Expired(key, c.items[key].serial, c.items[key].callback);
    assert KeyEvents(c, keys + {key}) == KeyEvents(c, keys) + {e};
    MultisetGrows(KeyEvents(c, keys), e);
    assert c.items - (keys + {key}) == c.items - keys - {key};
  }

  lemma ReleaseTask<K, V>(c: Cache<K, V>, keys: set<K>, nos: set<nat>, no: nat)
    requires keys <= c.items.Keys && nos <= c.tasks.Keys && no in c.tasks && no !in nos
    ensures var r := Released(c, keys, nos);
            Released(c, keys, nos + {no})
            == r.(tasks := r.tasks - {no}, log := r.log + multiset{Ran(no, c.tasks[no].token)})
  {
    var e: Event<K> := Ran(no, c.tasks[no].token);
    assert TaskEvents(c, nos + {no}) == TaskEvents(c, nos) + {e};
    MultisetGrows(TaskEvents(c, nos), e);
    assert c.tasks - (nos + {no}) == c.tasks - nos - {no};
  }

  lemma TaskEventsSplit<K, V>(c: Cache<K, V>, first: set<nat>, rest: set<nat>)
    requires first <= c.tasks.Keys && rest <= c.tasks.Keys && first !! rest
    ensures TaskEvents(c, first + rest) == TaskEvents(c, first) + TaskEvents(c, rest)
    ensures TaskEvents(c, first) !! TaskEvents(c, rest)
  {
  }

  lemma TaskEventsLater<K, V>(c: Cache<K, V>, first: set<nat>, rest: set<nat>)
    requires first <= c.tasks.Keys && rest <= c.tasks.Keys && first !! rest
    ensures rest <= Released(c, {}, first).tasks.Keys
    ensures TaskEvents(Released(c, {}, first), rest) == TaskEvents(c, rest)
  {
    hide KeyEvents;
  }

  lemma ReleaseMoreTasks<K, V>(c: Cache<K, V>, first: set<nat>, rest: set<nat>)
    requires first <= c.tasks.Keys && rest <= c.tasks.Keys && first !! rest
    ensures Released(Released(c, {}, first), {}, rest) == Released(c, {}, first + rest)
  {
    var c' := Released(c, {}, first);
    TaskEventsSplit(c, first, rest);
    TaskEventsLater(c, first, rest);
    hide TaskEvents, KeyEvents;
    MultisetOfUnion(TaskEvents(c, first), TaskEvents(c, rest));
    NoKeyEvents(c);
    NoKeyEvents(c');
    assert c.tasks - (first + rest) == c.tasks - first - rest;
    assert c.items - {} == c.items;
  }

  lemma NoKeyEvents<K, V>(c: Cache<K, V>)
    ensures multiset(KeyEvents(c, {})) == multiset{}
  {
    assert KeyEvents(c, {}) == {};
  }

  lemma MultisetOfUnion<T>(a: set<T>, b: set<T>)
    requires a !! b
    ensures multiset(a + b) == multiset(a) + multiset(b)
  {
  }
}
