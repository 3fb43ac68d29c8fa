/** solver-orders/src/cache.rs: the two-level index of pending orders and its
    rebuild by concurrent tasks. */
module SolverOrders {
  import opened Common

  datatype Leg = Leg(chain: string, initiator: string, redeemer: string)

  datatype Order = Order(id: string, sourceChain: string, destinationChain: string, source: Leg, destination: Leg)

  type SolverOrders = map<string, seq<Order>>
  type Cache = map<string, SolverOrders>

  const MAX_SOLVER_ORDERS_PER_CHAIN := 1000

  function NormalizeSolverId(addr: string, chain: string): string {
    if Includes(chain, "bitcoin") || Includes(chain, "solana") then addr else Lower(addr)
  }

  function SourceSolver(o: Order): string { NormalizeSolverId(o.source.redeemer, o.source.chain) }
  function DestinationSolver(o: Order): string { NormalizeSolverId(o.destination.initiator, o.destination.chain) }

  // ------------------------------------------------------- the plain reference

  /** An order is listed under its source chain for the solver that redeems there
      and, when the destination is another chain, under that chain for the solver
      that initiates there. */
  predicate ListedUnder(o: Order, chain: string, solver: string) {
    || (o.sourceChain == chain && SourceSolver(o) == solver)
    || (o.sourceChain != o.destinationChain && o.destinationChain == chain && DestinationSolver(o) == solver)
  }

  function Matching(orders: seq<Order>, chain: string, solver: string): seq<Order> {
    if orders == [] then [] else
      var n := |orders| - 1;
      Matching(orders[..n], chain, solver) + if ListedUnder(orders[n], chain, solver) then [orders[n]] else []
  }

  function First<T>(s: seq<T>, n: nat): seq<T> { if |s| <= n then s else s[..n] }

  // A cache that answers every lookup as a filter over the list would, with no
  // empty entries.
  ghost predicate Indexes(cache: Cache, orders: seq<Order>, limit: nat) {
    && (forall c, v :: c in cache && v in cache[c] ==>
          Matching(orders, c, v) != [] && cache[c][v] == First(Matching(orders, c, v), limit))
    && (forall c, v :: Matching(orders, c, v) != [] ==> c in cache && v in cache[c])
    && (forall c :: c in cache ==> cache[c] != map[])
  }

  lemma {:induction false} MatchingMembers(orders: seq<Order>, chain: string, solver: string)
    ensures forall o :: o in Matching(orders, chain, solver) <==> o in orders && ListedUnder(o, chain, solver)
  {
    if orders != [] {
      var n := |orders| - 1;
      MatchingMembers(orders[..n], chain, solver);
      assert orders == orders[..n] + [orders[n]];
    }
  }

  /** What a lookup in such a cache finds: orders of the list with that source chain
      whose source redeemer is the solver, or with another source chain and that
      destination chain whose destination initiator is; all of them while they are
      fewer than 1000, and never more. Addresses are compared in lower case, except
      on Bitcoin and Solana. */
  lemma LookupFinds(cache: Cache, orders: seq<Order>, chain: string, solver: string, o: Order)
    requires Indexes(cache, orders, MAX_SOLVER_ORDERS_PER_CHAIN)
    ensures var found := if chain in cache && solver in cache[chain] then cache[chain][solver] else [];
      var source, destination := o.source, o.destination;
      var atSource := o.sourceChain == chain && solver ==
        if Includes(source.chain, "bitcoin") || Includes(source.chain, "solana") then source.redeemer
        else Lower(source.redeemer);
      var atDestination := o.destinationChain == chain != o.sourceChain && solver ==
        if Includes(destination.chain, "bitcoin") || Includes(destination.chain, "solana") then destination.initiator
        else Lower(destination.initiator);
      && |found| <= 1000
      && (o in found ==> o in orders && (atSource || atDestination))
      && (o in orders && (atSource || atDestination) && |found| < 1000 ==> o in found)
  {
    MatchingMembers(orders, chain, solver);
    if Matching(orders, chain, solver) != [] { assert chain in cache && solver in cache[chain]; }
  }

  // There is only one such cache.
  lemma IndexIsDetermined(a: Cache, b: Cache, orders: seq<Order>, limit: nat)
    requires Indexes(a, orders, limit) && Indexes(b, orders, limit)
    ensures a == b
  {
    forall c ensures c in a <==> c in b {
      if c in a { var v :| v in a[c]; assert Matching(orders, c, v) != []; }
      if c in b { var v :| v in b[c]; assert Matching(orders, c, v) != []; }
    }
    forall c | c in a ensures a[c] == b[c] {
      assert forall v :: v in a[c] <==> Matching(orders, c, v) != [];
      assert forall v :: v in b[c] <==> Matching(orders, c, v) != [];
    }
  }

  // ------------------------------------------------------------- building it

  // `entry(chain).or_default().entry(solver).or_default().push(order)`
  function Push(index: Cache, chain: string, solver: string, o: Order): Cache {
    var inner := if chain in index then index[chain] else map[];
    index[chain := inner[solver := (if solver in inner then inner[solver] else []) + [o]]]
  }

  // The list an index holds for a chain and solver; empty when it has none.
  function Held(index: Cache, chain: string, solver: string): seq<Order> {
    if chain in index && solver in index[chain] then index[chain][solver] else []
  }

  // An index holding exactly the matching orders, nothing empty.
  ghost predicate Complete(index: Cache, orders: seq<Order>) {
    && (forall c, v :: Held(index, c, v) == Matching(orders, c, v))
    && (forall c, v :: c in index && v in index[c] ==> index[c][v] != [])
    && (forall c :: c in index ==> index[c] != map[])
  }

  lemma PushHolds(index: Cache, chain: string, solver: string, o: Order, c: string, v: string)
    ensures Held(Push(index, chain, solver, o), c, v)
         == Held(index, c, v) + if c == chain && v == solver then [o] else []
  {
  }

  // Nothing is empty afterwards if nothing was before.
  ghost predicate NothingEmpty(index: Cache) {
    && (forall c, v :: c in index && v in index[c] ==> index[c][v] != [])
    && (forall c :: c in index ==> index[c] != map[])
  }

  lemma PushKeepsNonEmpty(index: Cache, chain: string, solver: string, o: Order)
    requires NothingEmpty(index)
    ensures NothingEmpty(Push(index, chain, solver, o))
  {
    var next := Push(index, chain, solver, o);
    assert solver in next[chain];
  }

  lemma MatchingGrows(orders: seq<Order>, i: nat, c: string, v: string)
    requires i < |orders|
    ensures Matching(orders[..i + 1], c, v)
         == Matching(orders[..i], c, v) + if ListedUnder(orders[i], c, v) then [orders[i]] else []
  {
    assert orders[..i + 1][..i] == orders[..i];
  }

  method BuildIndex(orders: seq<Order>) returns (index: Cache)
    ensures Complete(index, orders)
  {
    index := map[];
    for i := 0 to |orders|
      invariant forall c, v :: Held(index, c, v) == Matching(orders[..i], c, v)
      invariant NothingEmpty(index)
    {
      var o := orders[i];
      ghost var before := index;
      PushKeepsNonEmpty(index, o.sourceChain, SourceSolver(o), o);
      index := Push(index, o.sourceChain, SourceSolver(o), o);
      ghost var middle := index;
      if o.sourceChain != o.destinationChain {
        PushKeepsNonEmpty(index, o.destinationChain, DestinationSolver(o), o);
        index := Push(index, o.destinationChain, DestinationSolver(o), o);
      }
      forall c, v ensures Held(index, c, v) == Matching(orders[..i + 1], c, v) {
        MatchingGrows(orders, i, c, v);
        PushHolds(before, o.sourceChain, SourceSolver(o), o, c, v);
        if o.sourceChain != o.destinationChain {
          PushHolds(middle, o.destinationChain, DestinationSolver(o), o, c, v);
        }
      }
    }
    assert orders[..|orders|] == orders;
  }

  // `truncate`, list by list.
  function Limited(solvers: SolverOrders): SolverOrders {
    map v | v in solvers :: First(solvers[v], MAX_SOLVER_ORDERS_PER_CHAIN)
  }

  function LimitedIndex(index: Cache): Cache { map c | c in index :: Limited(index[c]) }

  lemma LimitedIndexes(index: Cache, orders: seq<Order>)
    requires Complete(index, orders)
    ensures Indexes(LimitedIndex(index), orders, MAX_SOLVER_ORDERS_PER_CHAIN)
  {
    var cache := LimitedIndex(index);
    forall c, v | c in cache && v in cache[c]
      ensures Matching(orders, c, v) != [] && cache[c][v] == First(Matching(orders, c, v), MAX_SOLVER_ORDERS_PER_CHAIN)
    {
      assert Held(index, c, v) == index[c][v] == Matching(orders, c, v);
    }
    forall c, v | Matching(orders, c, v) != [] ensures c in cache && v in cache[c] {
      assert Held(index, c, v) == Matching(orders, c, v);
    }
    forall c | c in cache ensures cache[c] != map[] {
      assert index[c] != map[];
      assert cache[c].Keys == index[c].Keys;
    }
  }

  // ---------------------------------------------------------------- the tasks

  datatype Task = Insert(chain: string, solvers: SolverOrders) | Invalidate(chain: string)

  function Perform(cache: Cache, t: Task): Cache {
    match t
    case Insert(chain, solvers) => cache[chain := solvers]
    case Invalidate(chain) => cache - {chain}
  }

  function PerformAll(cache: Cache, tasks: seq<Task>): Cache {
    if tasks == [] then cache else Perform(PerformAll(cache, tasks[..|tasks| - 1]), tasks[|tasks| - 1])
  }

  // One insert per new chain, one invalidation per stale chain.
  ghost predicate IsTask(t: Task, cache: Cache, target: Cache) {
    match t
    case Insert(chain, solvers) => chain in target && solvers == target[chain]
    case Invalidate(chain) => chain in cache && chain !in target
  }

  // A schedule: tasks of the rebuild in some order, possibly not all of them yet.
  ghost predicate Schedule(tasks: seq<Task>, cache: Cache, target: Cache) {
    forall i :: 0 <= i < |tasks| ==> IsTask(tasks[i], cache, target)
  }

  ghost predicate Finished(tasks: seq<Task>, cache: Cache, target: Cache) {
    && (forall c :: c in target ==> Insert(c, target[c]) in tasks)
    && (forall c :: c in cache && c !in target ==> Invalidate(c) in tasks)
  }

  function Read(cache: Cache, c: string): Option<SolverOrders> {
    if c in cache then Some(cache[c]) else None
  }

  predicate Touches(t: Task, c: string) { t.chain == c }

  // A chain reads as its new value once one of its tasks ran, else as before.
  lemma {:induction false} ReadDuring(cache: Cache, target: Cache, tasks: seq<Task>, c: string)
    requires Schedule(tasks, cache, target)
    ensures Read(PerformAll(cache, tasks), c)
         == if exists t :: t in tasks && Touches(t, c) then Read(target, c) else Read(cache, c)
    decreases |tasks|
  {
    if tasks != [] {
      var n := |tasks| - 1;
      ReadDuring(cache, target, tasks[..n], c);
      assert tasks == tasks[..n] + [tasks[n]];
      assert IsTask(tasks[n], cache, target);
      if Touches(tasks[n], c) { assert tasks[n] in tasks; }
    }
  }

  /** At any moment of any interleaving a reader sees a chain's old or new value;
      a chain present before and after is never absent. */
  lemma ReaderSeesOldOrNew(cache: Cache, target: Cache, tasks: seq<Task>, c: string)
    requires Schedule(tasks, cache, target)
    ensures Read(PerformAll(cache, tasks), c) in {Read(cache, c), Read(target, c)}
    ensures c in cache && c in target ==> c in PerformAll(cache, tasks)
  {
    ReadDuring(cache, target, tasks, c);
  }

  /** Once all tasks have run, in whatever order, the cache is the target. */
  lemma RebuildReachesTarget(cache: Cache, target: Cache, tasks: seq<Task>)
    requires Schedule(tasks, cache, target) && Finished(tasks, cache, target)
    ensures PerformAll(cache, tasks) == target
  {
    var result := PerformAll(cache, tasks);
    forall c ensures Read(result, c) == Read(target, c) {
      ReadDuring(cache, target, tasks, c);
      if c in target {
        assert Touches(Insert(c, target[c]), c);
      } else if c in cache {
        assert Touches(Invalidate(c), c);
      }
    }
    SameReads(result, target);
  }

  lemma SameReads(a: Cache, b: Cache)
    requires forall c :: Read(a, c) == Read(b, c)
    ensures a == b
  {
    forall c ensures c in a <==> c in b {
      assert Read(a, c) == Read(b, c);
    }
    forall c | c in a ensures a[c] == b[c] {
      assert Read(a, c) == Read(b, c);
    }
  }

  class CacheSyncer {
    var cache: Cache

    constructor (cache: Cache)
      ensures this.cache == cache
    {
      this.cache := cache;
    }

    /** `process_orders`: the spawned tasks run in an order nobody controls. */
    method ProcessOrders(orders: seq<Order>) returns (ghost ran: seq<Task>)
      modifies this
      ensures Indexes(cache, orders, MAX_SOLVER_ORDERS_PER_CHAIN)
      ensures Schedule(ran, old(cache), cache) && cache == PerformAll(old(cache), ran)
    {
      var index := BuildIndex(orders);
      var target := LimitedIndex(index);
      LimitedIndexes(index, orders);
      var tasks: set<Task> := (set c | c in target :: Insert(c, target[c]))
                            + (set c | c in cache && c !in target :: Invalidate(c));
      ran := RunTasks(tasks, target);
    }

    method RunTasks(spawned: set<Task>, target: Cache) returns (ghost ran: seq<Task>)
      requires forall t :: t in spawned <==> IsTask(t, cache, target)
      modifies this
      ensures cache == target
      ensures Schedule(ran, old(cache), target) && cache == PerformAll(old(cache), ran)
    {
      var tasks := spawned;
      ran := [];
      while tasks != {}
        invariant tasks <= spawned
        invariant forall t :: t in ran <==> t in spawned && t !in tasks
        invariant cache == PerformAll(old(cache), ran)
        decreases |tasks|
      {
        var t :| t in tasks;
        assert (ran + [t])[..|ran|] == ran;
        cache := Perform(cache, t);
        tasks := tasks - {t};
        ran := ran + [t];
      }
      AllRan(spawned, ran, old(cache), target);
      RebuildReachesTarget(old(cache), target, ran);
    }
  }

  lemma AllRan(spawned: set<Task>, ran: seq<Task>, cache: Cache, target: Cache)
    requires forall t :: t in spawned <==> IsTask(t, cache, target)
    requires forall t :: t in ran <==> t in spawned
    ensures Schedule(ran, cache, target) && Finished(ran, cache, target)
  {
    forall c | c in target ensures Insert(c, target[c]) in ran {
      assert IsTask(Insert(c, target[c]), cache, target);
    }
    forall c | c in cache && c !in target ensures Invalidate(c) in ran {
      assert IsTask(Invalidate(c), cache, target);
    }
  }
}
