/** A reset that adds a transaction again can leave a gap inside a pending list. */
module ResetGaps {
  import opened Transactions
  import opened IntrinsicCosts
  import opened NonceItems
  import opened SortedMaps
  import opened TxLists
  import opened PoolStates
  import opened Equalizing
  import opened TxPools

  // A transaction is payable against the chain.
  predicate Payable(tx: Tx, chain: ChainState, a: Address, maxGas: nat) {
    !Unpayable(tx, chain.balance(a), maxGas, chain.balance)
  }

  /** A filter keeps what is payable, whether it scans or not. */
  lemma PayableKept(list: ListView, chain: ChainState, a: Address, maxGas: nat, n: nat)
    requires !list.strict && n in list.items && Payable(list.items[n], chain, a, maxGas)
    ensures n in Filter(list, chain.balance(a), maxGas, chain.balance).list.items
  {}

  /** Promotion takes the chain's next transaction and stops at the first nonce that is missing. */
  lemma PromotesNext(list: ListView, chain: ChainState, a: Address, maxGas: nat, limit: Option<nat>)
    requires !list.strict && chain.nonce(a) in list.items && chain.nonce(a) + 1 !in list.items
    requires Payable(list.items[chain.nonce(a)], chain, a, maxGas)
    ensures var plan := Promote(list, chain, a, maxGas, chain.nonce(a), limit);
      plan.run == map[chain.nonce(a) := list.items[chain.nonce(a)]]
  {
    var m := chain.nonce(a);
    var current := list.(items := Forwarded(list.items, m));
    var f := Filter(current, chain.balance(a), maxGas, chain.balance);
    PayableKept(current, chain, a, maxGas, m);
    FilterPartitions(current, chain.balance(a), maxGas, chain.balance);
    hide Filter, ReadyRun;
    FrontRun(f.list.items, m);
  }

  lemma FrontRun(m: Items, k: nat)
    requires k in m && k + 1 !in m && forall n :: n in m ==> k <= n
    ensures ReadyRun(m, k) == map[k := m[k]]
  {
    assert Lowest(m.Keys) == k;
    forall n: nat | InFirstRun(m, n)
      ensures n == k
    {
      assert k + 1 <= n ==> k + 1 in m;
    }
    assert InFirstRun(m, k);
  }

  /** Promotion adds nothing but queued transactions to the pending list, and keeps the others queued or drops them. */
  lemma PromotesQueued(list: ListView, chain: ChainState, a: Address, maxGas: nat, next: nat, limit: Option<nat>, n: nat)
    requires !list.strict && CapsBound(list)
    ensures var plan := Promote(list, chain, a, maxGas, next, limit); n in plan.run || n in plan.rest.items ==> n in list.items
  {
    hide Promote, CapsBound;
    PromotionParts(list, chain, a, maxGas, next, limit);
  }

  /** A payable list that holds the chain's next nonce survives demotion as it is. */
  lemma DemotionKeeps(list: ListView, chain: ChainState, a: Address, maxGas: nat, missing: nat)
    requires list.strict && chain.nonce(a) in list.items && missing !in list.items
    requires forall n :: n in list.items ==> chain.nonce(a) <= n && Payable(list.items[n], chain, a, maxGas)
    ensures var plan := Demote(list, chain, a, maxGas); plan.rest.items == list.items && missing !in plan.postponed
  {
    assert Standing(list, chain, a, maxGas) == list.items by {
      assert Forwarded(list.items, chain.nonce(a)) == list.items;
      assert PayablePrefix(list.items, chain, a, maxGas) == list.items;
    }
    hide Demote, Standing;
    OnlyFrontChecked(list, chain, a, maxGas);
    DemotionParts(list, chain, a, maxGas);
  }

  // The account before the reset: a payable pending list and a queue that both lie above the gap.
  ghost predicate AboveGap(s: Snapshot, chain: ChainState, a: Address, maxGas: nat, m: nat, lo: nat) {
    && lo in ItemsOf(s.pending, a) && s.managed == map[] && chain.nonce(a) == m
    && (forall n :: n in ItemsOf(s.pending, a) ==> m + 1 < n && Payable(ItemsOf(s.pending, a)[n], chain, a, maxGas))
    && (forall n :: n in ItemsOf(s.queue, a) ==> m + 1 < n)
  }

  lemma StagedAbove(s: Snapshot, t: Snapshot, chain: ChainState, maxGas: nat, tx: Tx, lo: nat)
    requires AboveGap(s, chain, tx.sender, maxGas, tx.nonce, lo) && Staged(s, t, [tx], [true])
    ensures t.pending == s.pending && Tracked(t, chain, tx.sender) == tx.nonce
    ensures ItemsOf(t.queue, tx.sender) == ItemsOf(s.queue, tx.sender)[tx.nonce := tx] && tx.sender in t.queue
    ensures tx.nonce + 1 !in ItemsOf(t.queue, tx.sender)
  {
    var a := tx.sender;
    assert At(a);
    EnqueuedOne(ItemsOf(s.queue, a), [tx], [], a, true);
    assert [] + [true] == [true];
    assert tx.nonce in ItemsOf(t.queue, a);
  }

  /** After adding and promoting: the transaction is in front, the gap right behind it. */
  lemma AddedAbove(s: Snapshot, t: Snapshot, u: Snapshot, chain: ChainState, maxGas: nat, tx: Tx, lo: nat, limit: Option<nat>)
    requires AboveGap(s, chain, tx.sender, maxGas, tx.nonce, lo) && Staged(s, t, [tx], [true]) && SnapOk(t)
    requires Payable(tx, chain, tx.sender, maxGas) && PromotedAt(t, u, chain, tx.sender, maxGas, limit)
    ensures ItemsOf(u.pending, tx.sender) == ItemsOf(s.pending, tx.sender)[tx.nonce := tx]
    ensures tx.nonce + 1 !in ItemsOf(u.queue, tx.sender)
  {
    hide Promote, Staged, CapsBound;
    var a := tx.sender;
    assert At(a);
    StagedAbove(s, t, chain, maxGas, tx, lo);
    PromotesNext(t.queue[a], chain, a, maxGas, limit);
    PromotesQueued(t.queue[a], chain, a, maxGas, tx.nonce, limit, tx.nonce + 1);
  }

  /** Neither demotion nor the promotion after it closes the gap. */
  lemma AlignedAbove(u: Snapshot, v: Snapshot, w: Snapshot, chain: ChainState, maxGas: nat, a: Address, lo: nat, limit: Option<nat>)
    requires SnapOk(u) && SnapOk(v) && PlanDemoted(u.pending, u.queue, v.pending, v.queue, chain, a, maxGas)
    requires chain.nonce(a) in ItemsOf(u.pending, a) && lo in ItemsOf(u.pending, a)
    requires chain.nonce(a) + 1 !in ItemsOf(u.pending, a) && chain.nonce(a) + 1 !in ItemsOf(u.queue, a)
    requires forall n :: n in ItemsOf(u.pending, a) ==> chain.nonce(a) <= n && Payable(ItemsOf(u.pending, a)[n], chain, a, maxGas)
    requires if a in v.queue then PromotedAt(v, w, chain, a, maxGas, limit) else SameAt(v, w, a)
    ensures lo in ItemsOf(w.pending, a) && chain.nonce(a) + 1 !in ItemsOf(w.pending, a)
  {
    hide Promote, Demote, CapsBound;
    assert At(a);
    DemotionKeeps(u.pending[a], chain, a, maxGas, chain.nonce(a) + 1);
    if a in v.queue {
      PromotesQueued(v.queue[a], chain, a, maxGas, Tracked(v, chain, a), limit, chain.nonce(a) + 1);
    }
  }

  lemma GapIsNotGapless(p: Items, q: Items, stateNonce: nat, next: nat, lo: nat)
    requires lo in p && stateNonce + 1 < lo && stateNonce + 1 !in p
    ensures !Gapless(p, q, stateNonce, next)
  {}

  /** The phases of a reset below the limits, for the account whose transaction is added again. */
  lemma GapRemains(s: Snapshot, t: Snapshot, u: Snapshot, v: Snapshot, w: Snapshot, chain: ChainState, maxGas: nat, locals: set<Address>,
                   accountQueue: nat, dirty: set<Address>, tx: Tx, lo: nat)
    requires AboveGap(s, chain, tx.sender, maxGas, tx.nonce, lo) && Payable(tx, chain, tx.sender, maxGas) && tx.sender in dirty
    requires Staged(s, t, [tx], [true]) && SnapOk(t) && SnapOk(u) && SnapOk(v)
    requires PromotedAll(t, u, chain, maxGas, locals, accountQueue, dirty) && DemotedAll(u, v, chain, maxGas)
    requires PromotedAll(v, w, chain, maxGas, locals, accountQueue, v.queue.Keys)
    ensures lo in ItemsOf(w.pending, tx.sender) && tx.nonce + 1 !in ItemsOf(w.pending, tx.sender)
  {
    hide PromotedAt, SameAt, Staged, PlanDemoted, SnapOk;
    var a := tx.sender;
    assert At(a);
    AddedAbove(s, t, u, chain, maxGas, tx, lo, LimitFor(locals, accountQueue, a));
    AlignedAbove(u, v, w, chain, maxGas, a, lo, LimitFor(locals, accountQueue, a));
  }

  /**
   A gapless pool below its limits, a new chain state at least two nonces below an account's pending run,
   and one transaction to add again, the one for the chain's nonce: unless that one is refused, the reset
   leaves a gap right behind it.
   */
  method ResetLeavesGap(pool: TxPool, chain: ChainState, maxGas: nat, tx: Tx, ghost lo: nat) returns (ghost refused: bool)
    requires pool.Valid() && pool.AllGapless() && pool.Small(|pool.all| + 1)
    requires AboveGap(Snapshot(pool.pending, pool.queue, map[]), chain, tx.sender, maxGas, tx.nonce, lo)
    requires Payable(tx, chain, tx.sender, maxGas)
    modifies pool, pool.priced
    ensures pool.Valid() && pool.state == chain && pool.maxGas == maxGas && pool.gasPrice == old(pool.gasPrice)
    ensures refused ==> exists e :: pool.Faulty(tx, e)
    ensures !refused ==> !pool.AllGapless()
  {
    hide TxPool.Valid, TxPool.AllGapless, Staged, PromotedAll, DemotedAll, SnapOk, TxPool.Faulty, SlotTaken, TxPool.Answer, Sourced;
    ghost var s, a := Snapshot(pool.pending, pool.queue, map[]), tx.sender;
    FreeSlot(pool, tx);
    ghost var errs, dirty, staged, added, aligned := pool.Reset(chain, maxGas, [tx]);
    refused := errs[0].Some?;
    if !refused {
      assert Taken(errs) == [true];
      assert [tx][0].sender in dirty;
      GapRemains(s, staged, added, aligned, pool.Snap(), chain, maxGas, pool.locals, pool.config.accountQueue, dirty, tx, lo);
      NotAllGapless(pool, a, lo);
    } else {
      assert pool.Justified(old(pool.all), [tx], errs, 0);
    }
  }

  // The transaction's slot is free in the pool, and so is its nonce among the pending ones.
  lemma FreeSlot(pool: TxPool, tx: Tx)
    requires pool.Valid() && tx.nonce !in ItemsOf(pool.pending, tx.sender) && tx.nonce !in ItemsOf(pool.queue, tx.sender)
    ensures !SlotTaken(pool.all, tx.sender, tx.nonce) && NonePending(pool.pending, [tx])
  {
    SlotUnique(pool.pending, pool.queue, pool.all, tx);
  }

  lemma NotAllGapless(pool: TxPool, a: Address, lo: nat)
    requires lo in ItemsOf(pool.pending, a) && pool.state.nonce(a) + 1 < lo && pool.state.nonce(a) + 1 !in ItemsOf(pool.pending, a)
    ensures !pool.AllGapless()
  {
    assert At(a);
    GapIsNotGapless(ItemsOf(pool.pending, a), ItemsOf(pool.queue, a), pool.state.nonce(a), pool.NextNonce(a), lo);
  }

  /** A queue with a single executable transaction is promoted whole. */
  lemma PromotesOnly(list: ListView, chain: ChainState, a: Address, maxGas: nat, next: nat, limit: Option<nat>, n: nat, tx: Tx)
    requires !list.strict && list.items == map[n := tx] && chain.nonce(a) <= n <= next && Payable(tx, chain, a, maxGas)
    ensures var plan := Promote(list, chain, a, maxGas, next, limit); plan.run == map[n := tx] && plan.rest.items == map[]
  {
    var current := list.(items := Forwarded(list.items, chain.nonce(a)));
    assert current.items == map[n := tx];
    PayableKept(current, chain, a, maxGas, n);
    var f := Filter(current, chain.balance(a), maxGas, chain.balance);
    FilterPartitions(current, chain.balance(a), maxGas, chain.balance);
    assert f.list.items == map[n := tx];
    assert Lowest(f.list.items.Keys) == n;
    assert InFirstRun(f.list.items, n);
    assert ReadyRun(f.list.items, next) == map[n := tx];
  }

  const SENDER: Address := 1

  function Sample(nonce: nat): Tx { Tx(SENDER, EMPTY_ADDRESS, nonce, 1, TX_GAS, 0, 0, Some(2), [], 100) }

  function ChainAt(nonce: nat): ChainState { ChainState(_ => nonce, _ => 1000000) }

  lemma SampleFits(pool: TxPool, nonce: nat, e: Error)
    requires pool.state == ChainAt(pool.state.nonce(SENDER)) && pool.state.nonce(SENDER) <= nonce && pool.maxGas == 1000000 && pool.gasPrice == 1
    ensures !pool.Faulty(Sample(nonce), e) && Payable(Sample(nonce), pool.state, SENDER, pool.maxGas)
  {
    assert IntrinsicCost([], false) == TX_GAS;
  }

  // The account's pending list, its empty queue, and where its tracked nonce stands.
  ghost predicate Holds(pool: TxPool, p: Items, next: nat)
    reads pool
  {
    ItemsOf(pool.pending, SENDER) == p && ItemsOf(pool.queue, SENDER) == map[] && pool.NextNonce(SENDER) == next
  }

  lemma AddedNext(s: Snapshot, t: Snapshot, chain: ChainState, maxGas: nat, locals: set<Address>, accountQueue: nat, tx: Tx)
    requires SnapOk(s) && PromotedAll(s, t, chain, maxGas, locals, accountQueue, {tx.sender})
    requires ItemsOf(s.queue, tx.sender) == map[tx.nonce := tx] && Tracked(s, chain, tx.sender) == tx.nonce
    requires chain.nonce(tx.sender) <= tx.nonce && Payable(tx, chain, tx.sender, maxGas)
    ensures ItemsOf(t.pending, tx.sender) == ItemsOf(s.pending, tx.sender)[tx.nonce := tx] && ItemsOf(t.queue, tx.sender) == map[]
    ensures Tracked(t, chain, tx.sender) == tx.nonce + 1
  {
    hide Promote, CapsBound;
    var a := tx.sender;
    assert At(a);
    assert a in s.queue by { assert tx.nonce in ItemsOf(s.queue, a); }
    PromotesOnly(s.queue[a], chain, a, maxGas, tx.nonce, LimitFor(locals, accountQueue, a), tx.nonce, tx);
    var p := ItemsOf(s.pending, a);
    assert p + map[tx.nonce := tx] == p[tx.nonce := tx];
  }

  /** Adds the account's next transaction, which goes straight to the pending list. */
  method AddNext(pool: TxPool, nonce: nat)
    requires pool.Valid() && pool.AllGapless() && pool.Small(|pool.all| + 1)
    requires pool.state == ChainAt(pool.state.nonce(SENDER)) && pool.state.nonce(SENDER) <= nonce && pool.maxGas == 1000000 && pool.gasPrice == 1
    requires exists p :: Holds(pool, p, nonce) && nonce !in p
    modifies pool, pool.priced
    ensures pool.Valid() && pool.AllGapless() && |pool.all| <= |old(pool.all)| + 1
    ensures pool.state == old(pool.state) && pool.maxGas == old(pool.maxGas) && pool.gasPrice == old(pool.gasPrice)
    ensures Holds(pool, old(ItemsOf(pool.pending, SENDER))[nonce := Sample(nonce)], nonce + 1)
  {
    hide TxPool.Valid, TxPool.AllGapless, PromotedAll, TxPool.Faulty, SlotTaken, Promote;
    var tx := Sample(nonce);
    FreeSlot(pool, tx);
    forall e ensures !pool.Faulty(tx, e) { SampleFits(pool, nonce, e); }
    SampleFits(pool, nonce, Known);
    ghost var before := pool.all;
    var err, room, staged := pool.AddTx(tx, false);
    SubsetSize(pool.all, before + {tx});
    AddedNext(staged, pool.Snap(), pool.state, pool.maxGas, pool.locals, pool.config.accountQueue, tx);
  }

  /**
   The gap from an empty pool: the account's transactions 5 and 6 are added at nonce 5, the chain falls
   back to nonce 3, and transaction 3 is added again. The pool was gapless before and is not after.
   */
  method GapRun() returns (pool: TxPool)
    ensures pool.Valid() && !pool.AllGapless()
  {
    hide TxPool.Valid, TxPool.AllGapless, TxPool.Faulty;
    pool := new TxPool(Config(10, 16, 4096, 64, 1024), ChainAt(5), 1000000, 1);
    assert Holds(pool, map[], 5);
    AddNext(pool, 5);
    assert Holds(pool, map[5 := Sample(5)], 6);
    AddNext(pool, 6);
    assert ItemsOf(pool.pending, SENDER) == map[5 := Sample(5), 6 := Sample(6)];
    SamplesAbove(Snapshot(pool.pending, pool.queue, map[]));
    var refused := ResetLeavesGap(pool, ChainAt(3), 1000000, Sample(3), 5);
    forall e ensures !pool.Faulty(Sample(3), e) { SampleFits(pool, 3, e); }
  }

  lemma SamplesAbove(s: Snapshot)
    requires ItemsOf(s.pending, SENDER) == map[5 := Sample(5), 6 := Sample(6)] && ItemsOf(s.queue, SENDER) == map[] && s.managed == map[]
    ensures AboveGap(s, ChainAt(3), SENDER, 1000000, 3, 5) && Payable(Sample(3), ChainAt(3), SENDER, 1000000)
  {}
}
