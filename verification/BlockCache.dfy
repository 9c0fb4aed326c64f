/** The block cache that request threads and the prefetch worker share. */
module BlockCache {
  // A table of payloads in least-recently-used order and a table of the loads in progress. Every
  // critical section of `load_block_impl` is one operation here, and `Machine` interleaves them freely.

  import opened Basics

  const MAX_ENTRIES: nat := 32

  /** The text that names a block in both tables. */
  datatype Key = Key(text: string)
  type Thread = nat

  datatype Block = Block(payload: seq<byte>, fileSize: nat)

  /** How a load ends: the downloaded block, or the text of the exception. */
  datatype Outcome = Loaded(block: Block) | Failed(error: string)

  /** The shared record that the owner of a load and its waiters hold; `None` until it is done. */
  datatype LoadState = LoadState(key: Key, owner: Thread, outcome: Option<Outcome>)

  /** The tables under the cache mutex. Load records are named by a handle, as they are shared
      and outlive their place in `loads`. */
  datatype Tables = Tables(
    entries: map<Key, Block>,
    order: seq<Key>,
    loads: map<Key, nat>,
    states: map<nat, LoadState>,
    nextLoad: nat)

  datatype LookupResult = Hit(block: Block) | Join(load: nat) | Own(load: nat)

  /** What the first critical section of a load decides and leaves behind. */
  function Lookup(c: Tables, key: Key, thread: Thread): (Tables, LookupResult) {
    if key in c.entries then
      (c.(order := [key] + Without(c.order, key)), Hit(c.entries[key]))
    else if key in c.loads then
      (c, Join(c.loads[key]))
    else
      (c.(loads := c.loads[key := c.nextLoad],
          states := c.states[c.nextLoad := LoadState(key, thread, None)],
          nextLoad := c.nextLoad + 1),
       Own(c.nextLoad))
  }

  /** The owner records the outcome in the shared load record. */
  function Publish(c: Tables, load: nat, outcome: Outcome): Tables
    requires load in c.states
  {
    c.(states := c.states[load := c.states[load].(outcome := Some(outcome))])
  }

  function EntriesOf<K(==, !new), V>(entries: map<K, V>, keys: seq<K>): map<K, V> {
    map k | k in entries && k in keys :: entries[k]
  }

  /** The owner's last critical section: the load leaves its table, and a downloaded block
      enters the cache as the most recent of at most MAX_ENTRIES. */
  function Commit(c: Tables, key: Key, outcome: Outcome): Tables {
    match outcome
    case Failed(_) => c.(loads := c.loads - {key})
    case Loaded(block) =>
      var order := Take([key] + c.order, MAX_ENTRIES);
      c.(loads := c.loads - {key}, order := order, entries := EntriesOf(c.entries[key := block], order))
  }

  ghost predicate Arranged<K(!new), V>(order: seq<K>, entries: map<K, V>) {
    NoDup(order) && forall k :: k in order <==> k in entries
  }

  lemma ArrangedInsert<K(!new), V>(order: seq<K>, entries: map<K, V>, key: K, value: V)
    requires Arranged(order, entries) && key !in entries
    ensures Arranged([key] + order, entries[key := value])
  {
  }

  /** The order list is a duplicate-free arrangement of the cached keys within the size limit,
      and no key is both cached and being loaded. */
  ghost predicate TablesValid(c: Tables) {
    && Arranged(c.order, c.entries)
    && |c.order| <= MAX_ENTRIES
    && (forall k :: k in c.loads ==> k !in c.entries)
    && (forall k :: k in c.loads ==> c.loads[k] in c.states && c.states[c.loads[k]].key == k)
    && (forall l :: l in c.states ==> l < c.nextLoad)
  }

  lemma LookupValid(c: Tables, key: Key, thread: Thread)
    requires TablesValid(c)
    ensures TablesValid(Lookup(c, key, thread).0)
  {
    if key in c.entries {
      WithoutNoDup(c.order, key);
      var i :| 0 <= i < |c.order| && c.order[i] == key;
      WithoutAt(c.order, key, i);
    }
  }

  lemma CommitValid(c: Tables, key: Key, outcome: Outcome)
    requires TablesValid(c) && key !in c.entries
    ensures TablesValid(Commit(c, key, outcome))
    ensures var d := Commit(c, key, outcome);
            key !in d.loads && (key in d.entries <==> outcome.Loaded?)
    ensures forall k :: k in c.loads && k != key ==>
              k in Commit(c, key, outcome).loads && Commit(c, key, outcome).loads[k] == c.loads[k]
  {
    if outcome.Loaded? {
      assert NoDup([key] + c.order);
      assert Commit(c, key, outcome).order[0] == key;
    }
  }

  /** The tables as the server object holds them. */
  class DownloadCache {
    var entries: map<Key, Block>
    var order: seq<Key>
    var loads: map<Key, nat>
    var states: map<nat, LoadState>
    var nextLoad: nat

    ghost function Contents(): Tables
      reads this
    {
      Tables(entries, order, loads, states, nextLoad)
    }

    constructor ()
      ensures Contents() == Tables(map[], [], map[], map[], 0) && TablesValid(Contents())
    {
      entries, order, loads, states, nextLoad := map[], [], map[], map[], 0;
    }

    method BeginLoad(key: Key, thread: Thread) returns (result: LookupResult)
      requires TablesValid(Contents())
      modifies this
      ensures TablesValid(Contents())
      ensures (Contents(), result) == Lookup(old(Contents()), key, thread)
      ensures result.Hit? ==> order != [] && order[0] == key
    {
      LookupValid(Contents(), key, thread);
      if key in entries {
        order := [key] + Without(order, key);
        return Hit(entries[key]);
      }
      if key in loads {
        return Join(loads[key]);
      }
      result := Own(nextLoad);
      states := states[nextLoad := LoadState(key, thread, None)];
      loads := loads[key := nextLoad];
      nextLoad := nextLoad + 1;
    }

    method PublishLoad(load: nat, outcome: Outcome)
      requires TablesValid(Contents()) && load in states
      modifies this`states
      ensures TablesValid(Contents())
      ensures Contents() == Publish(old(Contents()), load, outcome)
    {
      states := states[load := states[load].(outcome := Some(outcome))];
    }

    method FinishLoad(key: Key, outcome: Outcome)
      requires TablesValid(Contents()) && key !in entries
      modifies this`entries, this`order, this`loads
      ensures TablesValid(Contents())
      ensures Contents() == Commit(old(Contents()), key, outcome)
    {
      CommitValid(Contents(), key, outcome);
      loads := loads - {key};
      if outcome.Loaded? {
        InsertNewest(key, outcome.block);
      }
    }

    /** Puts the block at the front of the order list, then drops stale ones. */
    method InsertNewest(key: Key, block: Block)
      requires Arranged(order, entries) && key !in entries
      modifies this`entries, this`order
      ensures order == Take([key] + old(order), MAX_ENTRIES)
      ensures entries == EntriesOf(old(entries)[key := block], order)
    {
      ArrangedInsert(order, entries, key, block);
      order := [key] + order;
      entries := if key in entries then entries else entries[key := block];
      EvictStale();
    }

    /** Drops entries from the back of the order list until the size limit holds. */
    method EvictStale()
      requires Arranged(order, entries)
      modifies this`entries, this`order
      ensures order == Take(old(order), MAX_ENTRIES)
      ensures entries == EntriesOf(old(entries), order)
    {
      EntriesOfAll(entries, order);
      ghost var all, full := entries, order;
      assert Trimmed(all, full, order, entries);
      while |entries| > MAX_ENTRIES
        invariant Trimmed(all, full, order, entries)
        decreases |order|
      {
        TrimmedSize(all, full, order, entries);
        hide Trimmed, Arranged, EntriesOf;
        order, entries := DropLast(order, entries, all, full);
      }
    }
  }

  /** One eviction, on values. */
  method DropLast<K(==, !new), V>(order: seq<K>, entries: map<K, V>, ghost all: map<K, V>, ghost full: seq<K>)
    returns (order': seq<K>, entries': map<K, V>)
    requires Trimmed(all, full, order, entries) && |order| > MAX_ENTRIES
    ensures order' == order[..|order| - 1] && entries' == entries - {order[|order| - 1]}
    ensures Trimmed(all, full, order', entries')
  {
    EvictOne(all, full, order, entries);
    var stale := order[|order| - 1];
    order' := order[..|order| - 1];
    entries' := entries - {stale};
  }

  /** `order` is what is left of `full` after dropping keys from the back, down to the limit. */
  ghost predicate Trimmed<K(!new), V>(all: map<K, V>, full: seq<K>, order: seq<K>, entries: map<K, V>) {
    && NoDup(full) && (forall k :: k in full ==> k in all)
    && |order| <= |full| && order == full[..|order|]
    && (MAX_ENTRIES <= |order| || order == full)
    && entries == EntriesOf(all, order) && |entries| == |order|
  }

  lemma TrimmedSize<K(!new), V>(all: map<K, V>, full: seq<K>, order: seq<K>, entries: map<K, V>)
    requires Trimmed(all, full, order, entries)
    ensures |entries| == |order|
  {
  }

  lemma EvictOne<K(!new), V>(all: map<K, V>, full: seq<K>, order: seq<K>, entries: map<K, V>)
    requires Trimmed(all, full, order, entries) && |order| > MAX_ENTRIES
    ensures Trimmed(all, full, order[..|order| - 1], entries - {order[|order| - 1]})
  {
    EntriesOfSize(all, order[..|order| - 1]);
    assert order == order[..|order| - 1] + [order[|order| - 1]];
  }

  lemma EntriesOfAll<K(!new), V>(entries: map<K, V>, keys: seq<K>)
    requires Arranged(keys, entries)
    ensures EntriesOf(entries, keys) == entries && |entries| == |keys|
  {
    EntriesOfSize(entries, keys);
  }

  lemma EntriesOfSize<K(!new), V>(entries: map<K, V>, keys: seq<K>)
    requires NoDup(keys) && forall k :: k in keys ==> k in entries
    ensures |EntriesOf(entries, keys)| == |keys|
  {
    NoDupSize(keys);
    assert EntriesOf(entries, keys).Keys == (set k | k in keys);
  }

  // ---------------------------------------------------------------------------------------
  // Threads

  /** Where a thread stands inside a load. `Returned` remembers the load it took part in. */
  datatype Phase =
    | Fetching(key: Key, load: nat)
    | Settling(key: Key, load: nat, outcome: Outcome)
    | Waiting(key: Key, load: nat)
    | Returned(key: Key, via: Option<nat>, outcome: Outcome)

  /** `touched` lists, oldest first, the keys in the order they were hit or inserted. */
  datatype Machine = Machine(tables: Tables, phases: map<Thread, Phase>, touched: seq<Key>)

  const EMPTY_CACHE: Machine := Machine(Tables(map[], [], map[], map[], 0), map[], [])

  function Begin(m: Machine, t: Thread, key: Key): Machine {
    var (tables, result) := Lookup(m.tables, key, t);
    match result
    case Hit(block) => Machine(tables, m.phases[t := Returned(key, None, Loaded(block))], m.touched + [key])
    case Join(load) => Machine(tables, m.phases[t := Waiting(key, load)], m.touched)
    case Own(load) => Machine(tables, m.phases[t := Fetching(key, load)], m.touched)
  }

  /** The provider's fetch ends and the owner publishes the outcome. */
  function FetchEnds(m: Machine, t: Thread, outcome: Outcome): Machine
    requires t in m.phases && m.phases[t].Fetching? && m.phases[t].load in m.tables.states
  {
    var phase := m.phases[t];
    Machine(Publish(m.tables, phase.load, outcome),
            m.phases[t := Settling(phase.key, phase.load, outcome)], m.touched)
  }

  function Settle(m: Machine, t: Thread): Machine
    requires t in m.phases && m.phases[t].Settling?
  {
    var phase := m.phases[t];
    Machine(Commit(m.tables, phase.key, phase.outcome),
            m.phases[t := Returned(phase.key, Some(phase.load), phase.outcome)],
            if phase.outcome.Loaded? then m.touched + [phase.key] else m.touched)
  }

  /** What a waiter returns or throws once the owner has published. */
  function WaiterView(outcome: Outcome): Outcome {
    match outcome
    case Loaded(_) => outcome
    case Failed(error) => if error == "" then Failed("block download failed") else outcome
  }

  predicate CanWake(m: Machine, t: Thread) {
    && t in m.phases && m.phases[t].Waiting?
    && m.phases[t].load in m.tables.states
    && m.tables.states[m.phases[t].load].outcome.Some?
  }

  function Wake(m: Machine, t: Thread): Machine
    requires CanWake(m, t)
  {
    var phase := m.phases[t];
    var outcome := WaiterView(m.tables.states[phase.load].outcome.value);
    m.(phases := m.phases[t := Returned(phase.key, Some(phase.load), outcome)])
  }

  function Leave(m: Machine, t: Thread): Machine {
    m.(phases := m.phases - {t})
  }

  /** `store` holds the one block that a successful fetch of each key can yield. */
  ghost predicate Genuine(store: map<Key, Block>, key: Key, outcome: Outcome) {
    outcome.Loaded? ==> key in store && outcome.block == store[key]
  }

  /** A load record that is still in the table has its owner inside that very load. */
  ghost predicate OwnerPresent(m: Machine, key: Key)
    requires key in m.tables.loads && m.tables.loads[key] in m.tables.states
  {
    var load := m.tables.loads[key];
    var state := m.tables.states[load];
    && state.owner in m.phases
    && m.phases[state.owner] ==
         if state.outcome.None? then Fetching(key, load) else Settling(key, load, state.outcome.value)
  }

  ghost predicate PhaseValid(m: Machine, store: map<Key, Block>, t: Thread)
    requires t in m.phases
  {
    var c := m.tables;
    match m.phases[t]
    case Fetching(key, load) =>
      && key in c.loads && c.loads[key] == load
      && load in c.states && c.states[load] == LoadState(key, t, None)
    case Settling(key, load, outcome) =>
      && key in c.loads && c.loads[key] == load
      && load in c.states && c.states[load] == LoadState(key, t, Some(outcome))
    case Waiting(key, load) =>
      && load in c.states && c.states[load].key == key
      && (c.states[load].outcome.None? ==> key in c.loads && c.loads[key] == load)
    case Returned(key, via, outcome) =>
      && Genuine(store, key, outcome)
      && (via.Some? ==>
            && via.value in c.states && c.states[via.value].key == key
            && c.states[via.value].outcome.Some?
            && (outcome == c.states[via.value].outcome.value || outcome == WaiterView(c.states[via.value].outcome.value)))
  }

  ghost predicate MachineValid(m: Machine, store: map<Key, Block>) {
    && TablesValid(m.tables)
    && (forall k :: k in m.tables.entries ==> k in store && m.tables.entries[k] == store[k])
    && (forall k :: k in m.tables.loads ==> OwnerPresent(m, k))
    && (forall l :: l in m.tables.states && m.tables.states[l].outcome.Some? ==>
          Genuine(store, m.tables.states[l].key, m.tables.states[l].outcome.value))
    && (forall t :: t in m.phases ==> PhaseValid(m, store, t))
    && m.tables.order == Take(Recency(m.touched), MAX_ENTRIES)
  }

  // ---------------------------------------------------------------------------------------
  // The reference for eviction: keys by the time they were last touched.

  /** The distinct keys of a history, the most recently touched first. */
  function Recency(history: seq<Key>): seq<Key> {
    if history == [] then []
    else
      var key := history[|history| - 1];
      [key] + Without(Recency(history[..|history| - 1]), key)
  }

  lemma {:induction false} RecencyNoDup(history: seq<Key>)
    ensures NoDup(Recency(history))
  {
    if history != [] {
      RecencyNoDup(history[..|history| - 1]);
      var key, rest := history[|history| - 1], Recency(history[..|history| - 1]);
      WithoutNoDup(rest, key);
      assert key !in Without(rest, key);
    }
  }

  /** When a key was last touched, or -1. */
  function LastTouch(history: seq<Key>, key: Key): (at: int)
    ensures -1 <= at < |history|
    ensures at < 0 <==> key !in history
  {
    if history == [] then -1
    else if history[|history| - 1] == key then |history| - 1
    else LastTouch(history[..|history| - 1], key)
  }

  lemma {:induction false} RecencyMembers(history: seq<Key>)
    ensures forall k :: k in Recency(history) <==> k in history
  {
    if history != [] {
      RecencyMembers(history[..|history| - 1]);
    }
  }

  ghost predicate NewestFirst(keys: seq<Key>, history: seq<Key>) {
    forall i, j :: 0 <= i < j < |keys| ==> LastTouch(history, keys[i]) > LastTouch(history, keys[j])
  }

  lemma NewestFirstWithout(keys: seq<Key>, history: seq<Key>, key: Key)
    requires NoDup(keys) && NewestFirst(keys, history)
    ensures NewestFirst(Without(keys, key), history)
  {
    if key in keys {
      var p :| 0 <= p < |keys| && keys[p] == key;
      WithoutAt(keys, key, p);
    } else {
      WithoutAbsent(keys, key);
    }
  }

  lemma {:induction false} RecencyOrder(history: seq<Key>)
    ensures NewestFirst(Recency(history), history)
  {
    if history != [] {
      var key, init := history[|history| - 1], history[..|history| - 1];
      RecencyOrder(init);
      RecencyNoDup(init);
      var others := Without(Recency(init), key);
      NewestFirstWithout(Recency(init), init, key);
      assert forall i :: 0 <= i < |others| ==> others[i] in others;
      assert forall i :: 0 <= i < |others| ==> LastTouch(history, others[i]) == LastTouch(init, others[i]);
    }
  }

  /** The reference order lists what was ever touched, each key once, by the time of its last touch,
      newest first. */
  lemma RecencySorted(history: seq<Key>)
    ensures NewestFirst(Recency(history), history) && NoDup(Recency(history))
    ensures forall k :: k in Recency(history) <==> k in history
  {
    hide Recency, NewestFirst, NoDup;
    RecencyOrder(history);
    RecencyNoDup(history);
    RecencyMembers(history);
  }

  lemma TouchCached(order: seq<Key>, all: seq<Key>, key: Key)
    requires NoDup(all) && order == Take(all, MAX_ENTRIES) && key in order
    ensures [key] + Without(order, key) == Take([key] + Without(all, key), MAX_ENTRIES)
  {
    var i :| 0 <= i < |order| && order[i] == key;
    WithoutAt(all, key, i);
    WithoutAt(order, key, i);
  }

  lemma TouchNew(order: seq<Key>, all: seq<Key>, key: Key)
    requires NoDup(all) && order == Take(all, MAX_ENTRIES) && key !in order
    ensures Take([key] + order, MAX_ENTRIES) == Take([key] + Without(all, key), MAX_ENTRIES)
  {
    if key in all {
      var i :| 0 <= i < |all| && all[i] == key;
      assert forall p :: 0 <= p < MAX_ENTRIES && p < |all| ==> all[p] == order[p];
      WithoutAt(all, key, i);
    } else {
      WithoutAbsent(all, key);
    }
  }

  lemma RecencyTouch(history: seq<Key>, key: Key)
    ensures Recency(history + [key]) == [key] + Without(Recency(history), key)
  {
    assert (history + [key])[..|history|] == history;
  }

  // ---------------------------------------------------------------------------------------
  // Every step keeps the invariant

  lemma EmptyValid(store: map<Key, Block>)
    ensures MachineValid(EMPTY_CACHE, store)
  {
  }

  /** A step of `t` on the tables `c` leaves every other thread's own facts as they were. */
  ghost predicate OthersUntouched(m: Machine, n: Machine, t: Thread) {
    && (forall u :: u != t ==> (u in m.phases <==> u in n.phases))
    && (forall u :: u != t && u in m.phases ==> m.phases[u] == n.phases[u])
    && (forall l :: l in m.tables.states ==> l in n.tables.states && n.tables.states[l] == m.tables.states[l])
    && (forall k :: k in m.tables.loads ==> k in n.tables.loads && n.tables.loads[k] == m.tables.loads[k])
  }

  lemma OthersKeep(m: Machine, n: Machine, store: map<Key, Block>, t: Thread, u: Thread)
    requires OthersUntouched(m, n, t) && u != t && u in m.phases && PhaseValid(m, store, u)
    ensures PhaseValid(n, store, u)
  {
  }

  lemma HitKeeps(m: Machine, store: map<Key, Block>, t: Thread, key: Key)
    requires MachineValid(m, store) && t !in m.phases && key in m.tables.entries
    ensures MachineValid(Begin(m, t, key), store)
  {
    var n := Begin(m, t, key);
    LookupValid(m.tables, key, t);
    RecencyNoDup(m.touched);
    TouchCached(m.tables.order, Recency(m.touched), key);
    RecencyTouch(m.touched, key);
    forall k | k in n.tables.loads
      ensures OwnerPresent(n, k)
    {
      assert OwnerPresent(m, k);
    }
    forall u | u in n.phases
      ensures PhaseValid(n, store, u)
    {
      if u != t { OthersKeep(m, n, store, t, u); }
    }
  }

  lemma MissKeeps(m: Machine, store: map<Key, Block>, t: Thread, key: Key)
    requires MachineValid(m, store) && t !in m.phases && key !in m.tables.entries
    ensures MachineValid(Begin(m, t, key), store)
  {
    var n := Begin(m, t, key);
    LookupValid(m.tables, key, t);
    forall k | k in n.tables.loads
      ensures OwnerPresent(n, k)
    {
      if k in m.tables.loads { assert OwnerPresent(m, k); }
    }
    forall u | u in n.phases
      ensures PhaseValid(n, store, u)
    {
      if u != t {
        OthersKeep(m, n, store, t, u);
      } else if key in m.tables.loads {
        assert OwnerPresent(m, key);
      }
    }
  }

  lemma BeginKeeps(m: Machine, store: map<Key, Block>, t: Thread, key: Key)
    requires MachineValid(m, store) && t !in m.phases
    ensures MachineValid(Begin(m, t, key), store)
  {
    if key in m.tables.entries {
      HitKeeps(m, store, t, key);
    } else {
      MissKeeps(m, store, t, key);
    }
  }

  lemma FetchEndsKeeps(m: Machine, store: map<Key, Block>, t: Thread, outcome: Outcome)
    requires MachineValid(m, store) && t in m.phases && m.phases[t].Fetching?
    requires Genuine(store, m.phases[t].key, outcome)
    ensures m.phases[t].load in m.tables.states
    ensures MachineValid(FetchEnds(m, t, outcome), store)
  {
    assert PhaseValid(m, store, t);
    var n := FetchEnds(m, t, outcome);
    forall k | k in n.tables.loads
      ensures OwnerPresent(n, k)
    {
      assert OwnerPresent(m, k);
    }
    forall u | u in n.phases
      ensures PhaseValid(n, store, u)
    {
      assert PhaseValid(m, store, u);
    }
  }

  lemma SettleKeeps(m: Machine, store: map<Key, Block>, t: Thread)
    requires MachineValid(m, store) && t in m.phases && m.phases[t].Settling?
    ensures MachineValid(Settle(m, t), store)
  {
    assert PhaseValid(m, store, t);
    var phase := m.phases[t];
    CommitValid(m.tables, phase.key, phase.outcome);
    var n := Settle(m, t);
    if phase.outcome.Loaded? {
      RecencyNoDup(m.touched);
      TouchNew(m.tables.order, Recency(m.touched), phase.key);
      RecencyTouch(m.touched, phase.key);
    }
    forall k | k in n.tables.loads
      ensures OwnerPresent(n, k)
    {
      assert OwnerPresent(m, k);
    }
    forall u | u in n.phases
      ensures PhaseValid(n, store, u)
    {
      assert PhaseValid(m, store, u);
    }
  }

  lemma WakeKeeps(m: Machine, store: map<Key, Block>, t: Thread)
    requires MachineValid(m, store) && CanWake(m, t)
    ensures MachineValid(Wake(m, t), store)
  {
    assert PhaseValid(m, store, t);
    var n := Wake(m, t);
    forall k | k in n.tables.loads
      ensures OwnerPresent(n, k)
    {
      assert OwnerPresent(m, k);
    }
    forall u | u in n.phases
      ensures PhaseValid(n, store, u)
    {
      assert PhaseValid(m, store, u);
    }
  }

  lemma LeaveKeeps(m: Machine, store: map<Key, Block>, t: Thread)
    requires MachineValid(m, store) && t in m.phases && m.phases[t].Returned?
    ensures MachineValid(Leave(m, t), store)
  {
    var n := Leave(m, t);
    forall k | k in n.tables.loads
      ensures OwnerPresent(n, k)
    {
      assert OwnerPresent(m, k);
    }
    forall u | u in n.phases
      ensures PhaseValid(n, store, u)
    {
      assert PhaseValid(m, store, u);
    }
  }

  // ---------------------------------------------------------------------------------------
  // Consequences

  /** At most one fetch of a key is in progress. */
  lemma SingleFlight(m: Machine, store: map<Key, Block>, t: Thread, u: Thread)
    requires MachineValid(m, store) && t in m.phases && u in m.phases
    requires m.phases[t].Fetching? && m.phases[u].Fetching? && m.phases[t].key == m.phases[u].key
    ensures t == u
  {
    assert PhaseValid(m, store, t) && PhaseValid(m, store, u);
  }

  /** Threads that took part in one load all return its block or all fail. */
  lemma SharedOutcome(m: Machine, store: map<Key, Block>, t: Thread, u: Thread)
    requires MachineValid(m, store) && t in m.phases && u in m.phases
    requires m.phases[t].Returned? && m.phases[u].Returned?
    requires m.phases[t].via.Some? && m.phases[t].via == m.phases[u].via
    ensures m.phases[t].key == m.phases[u].key
    ensures m.phases[t].outcome.Loaded? <==> m.phases[u].outcome.Loaded?
    ensures m.phases[t].outcome.Loaded? ==> m.phases[t].outcome == m.phases[u].outcome
  {
    assert PhaseValid(m, store, t) && PhaseValid(m, store, u);
  }

  /** A waiter is never stranded: its load is done, or the owner is still fetching. */
  lemma WaiterHasOwner(m: Machine, store: map<Key, Block>, t: Thread)
    requires MachineValid(m, store) && t in m.phases && m.phases[t].Waiting?
    ensures CanWake(m, t) ||
            (var load := m.phases[t].load;
             && load in m.tables.states
             && m.tables.states[load].owner in m.phases
             && m.phases[m.tables.states[load].owner] == Fetching(m.phases[t].key, load))
  {
    assert PhaseValid(m, store, t);
    if !CanWake(m, t) {
      assert OwnerPresent(m, m.phases[t].key);
    }
  }

  /** After a failed load the key is in neither table, and the next caller fetches again. */
  lemma FailureIsForgotten(m: Machine, store: map<Key, Block>, t: Thread, next: Thread)
    requires MachineValid(m, store) && t in m.phases && m.phases[t].Settling? && m.phases[t].outcome.Failed?
    requires next !in Settle(m, t).phases
    ensures var n := Settle(m, t);
            var key := m.phases[t].key;
            && key !in n.tables.entries && key !in n.tables.loads
            && Begin(n, next, key).phases[next] == Fetching(key, n.tables.nextLoad)
  {
    assert PhaseValid(m, store, t);
  }

  /** The block just inserted is the newest entry, and only the least recently used one can go. */
  lemma EvictsLeastRecent(m: Machine, store: map<Key, Block>, t: Thread)
    requires MachineValid(m, store) && t in m.phases && m.phases[t].Settling? && m.phases[t].outcome.Loaded?
    ensures var n, key := Settle(m, t), m.phases[t].key;
            && key in n.tables.entries && n.tables.order[0] == key
            && (forall k :: k in m.tables.entries && k !in n.tables.entries ==>
                  |m.tables.order| == MAX_ENTRIES && k == m.tables.order[MAX_ENTRIES - 1])
  {
    assert PhaseValid(m, store, t);
    var n, key := Settle(m, t), m.phases[t].key;
    assert n.tables.order[0] == key;
    forall i | 0 <= i < |m.tables.order| && i < MAX_ENTRIES - 1
      ensures m.tables.order[i] in n.tables.entries
    {
      assert n.tables.order[i + 1] == m.tables.order[i];
    }
    forall k | k in m.tables.entries && k !in n.tables.entries
      ensures |m.tables.order| == MAX_ENTRIES && k == m.tables.order[MAX_ENTRIES - 1]
    {
      var i :| 0 <= i < |m.tables.order| && m.tables.order[i] == k;
    }
  }
}
