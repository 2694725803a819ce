/** TxPool: the pending and queued lists of all accounts, the lookup, and the price heap, kept together. */
module TxPools {
  import opened Transactions
  import opened NonceItems
  import opened SortedMaps
  import opened TxLists
  import opened PricedLists
  import opened PoolStates
  import opened Equalizing
  import opened Heaps
  import opened IntrinsicCosts

  datatype Config = Config(priceBump: nat, accountSlots: nat, globalSlots: nat, accountQueue: nat, globalQueue: nat)
  {
    /** What sanitising the configuration guarantees. */
    predicate Sane() {
      1 <= priceBump && 1 <= accountSlots && 1 <= globalSlots && 1 <= accountQueue && 1 <= globalQueue
    }
  }

  datatype Error = Known | OversizedData | NegativeValue | NegativeFee | GasLimit | ForbiddenAddress | Underpriced | NonceTooLow
                 | PayerFunds | SenderFunds | Funds | GasOverflow | IntrinsicGasTooLow | ReplaceUnderpriced

  const MAX_TX_SIZE: nat := 32 * 1024

  class TxPool {
    const config: Config
    const priced: PricedList
    var state: ChainState
    var maxGas: nat
    var gasPrice: nat
    var locals: set<Address>
    var managed: map<Address, nat>
    var pending: Lists
    var queue: Lists
    var all: set<Tx>

    /** The tracked pending nonce: the managed one, or the state's. */
    function NextNonce(a: Address): nat
      reads this`state, this`managed
    {
      TrackedIn(managed, state, a)
    }

    /** The lists and the lookup agree; the price heap is in order. */
    ghost predicate Listed()
      reads this, priced
    {
      config.Sane() && ListsOk(pending, true) && ListsOk(queue, false) && Exact(pending, queue, all) && priced.Valid()
    }

    ghost predicate Valid()
      reads this, priced
    {
      Listed() && Sound(priced.items, priced.stales, all)
    }

    /** The pool's invariant while the transactions in `leaving` are off the price heap and about to be removed. */
    ghost predicate Leaving(leaving: set<Tx>)
      reads this, priced
    {
      Listed() && Sound(priced.items, priced.stales, all - leaving)
    }

    ghost predicate AllGapless()
      reads this`state, this`managed, this`pending, this`queue
    {
      forall a {:trigger At(a)} :: At(a) ==> Gapless(ItemsOf(pending, a), ItemsOf(queue, a), state.nonce(a), NextNonce(a))
    }

    /** Pools of this size never meet a global limit. */
    ghost predicate Small(size: nat)
      reads this
    {
      size <= config.globalSlots && size <= config.globalQueue
    }

    /** The limits that promotion leaves behind. */
    ghost predicate WithinLimits()
      reads this
    {
      && (Total(queue) <= config.globalQueue || forall a :: a in queue ==> a in locals)
      && (Total(pending) <= config.globalSlots || forall a :: a in pending && a !in locals ==> Len(pending, a) <= config.accountSlots)
    }

    constructor (config: Config, state: ChainState, maxGas: nat, gasPrice: nat)
      requires config.Sane()
      ensures Valid() && AllGapless() && fresh(priced)
      ensures all == {} && this.config == config && this.state == state && this.maxGas == maxGas && this.gasPrice == gasPrice
      ensures pending == map[] && queue == map[] && managed == map[] && locals == {}
    {
      this.config, this.state, this.maxGas, this.gasPrice := config, state, maxGas, gasPrice;
      priced := new PricedList();
      locals, managed, pending, queue, all := {}, map[], map[], map[], {};
    }

    /** Drops transactions from the lookup one by one, telling the price heap each time. */
    method Forget(txs: set<Tx>)
      requires priced.Valid() && txs <= all && Sound(priced.items, priced.stales, all)
      modifies this`all, priced
      ensures priced.Valid() && all == old(all) - txs && Sound(priced.items, priced.stales, all)
    {
      hide Sound;
      var todo := txs;
      while todo != {}
        invariant priced.Valid() && todo <= txs && all == old(all) - (txs - todo)
        invariant Sound(priced.items, priced.stales, all)
        decreases todo
      {
        var tx :| tx in todo;
        todo := todo - {tx};
        assert (all - {tx}) + {tx} == all;
        all := all - {tx};
        priced.Removed(all, tx);
      }
    }

    /** Puts a transaction into its sender's queue, replacing one it outbids. */
    method EnqueueTx(tx: Tx) returns (inserted: bool, replaced: bool)
      requires ListsOk(queue, false) && priced.Valid()
      modifies this`queue, this`all, priced
      ensures ListsOk(queue, false) && priced.Valid() && SameElsewhere(old(queue), queue, tx.sender)
      ensures inserted == Accepts(old(QueueOf(tx.sender)), tx, config.priceBump)
      ensures replaced == (inserted && tx.nonce in old(ItemsOf(queue, tx.sender)))
      ensures !inserted ==> queue == old(queue) && all == old(all) && priced.items == old(priced.items) && priced.stales == old(priced.stales)
      ensures inserted ==> ItemsOf(queue, tx.sender) == old(ItemsOf(queue, tx.sender))[tx.nonce := tx]
      ensures inserted ==> all == (if replaced then old(all) - {old(ItemsOf(queue, tx.sender)[tx.nonce])} else old(all)) + {tx}
      ensures !replaced && tx in old(all) ==> priced.items == old(priced.items) && priced.stales == old(priced.stales)
      ensures Sound(old(priced.items), old(priced.stales), old(all)) && (replaced ==> old(ItemsOf(queue, tx.sender)[tx.nonce] in all)) ==>
                Sound(priced.items, priced.stales, all)
    {
      replaced := false;
      var list := QueueOf(tx.sender);
      inserted := Accepts(list, tx, config.priceBump);
      if !inserted { return; }
      ListsOkAdded(queue, false, tx.sender, list, tx);
      queue := queue[tx.sender := Added(list, tx)];
      if tx.nonce in list.items {
        replaced := true;
        ghost var before := all;
        all := all - {list.items[tx.nonce]};
        assert list.items[tx.nonce] in before ==> all + {list.items[tx.nonce]} == before;
        priced.Removed(all, list.items[tx.nonce]);
      }
      if tx !in all {
        all := all + {tx};
        priced.Put(tx);
      }
    }

    function QueueOf(a: Address): ListView
      reads this
    {
      if a in queue then queue[a] else EmptyList(false)
    }

    function PendingOf(a: Address): ListView
      reads this
    {
      if a in pending then pending[a] else EmptyList(true)
    }

    /** Moves transactions that stay pooled back into the queue. None is refused: their nonces are free there. */
    method Requeue(a: Address, txs: Items)
      requires ListsOk(queue, false) && priced.Valid()
      requires forall n :: n in txs ==> txs[n].nonce == n && txs[n].sender == a && txs[n] in all && n !in ItemsOf(queue, a)
      modifies this`queue, this`all, priced
      ensures ListsOk(queue, false) && priced.Valid() && SameElsewhere(old(queue), queue, a)
      ensures ItemsOf(queue, a) == old(ItemsOf(queue, a)) + txs
      ensures all == old(all) && priced.items == old(priced.items) && priced.stales == old(priced.stales)
    {
      ghost var q := ItemsOf(queue, a);
      var todo := txs.Keys;
      while todo != {}
        invariant ListsOk(queue, false) && priced.Valid() && SameElsewhere(old(queue), queue, a)
        invariant todo <= txs.Keys && ItemsOf(queue, a) == q + (txs - todo)
        invariant all == old(all) && priced.items == old(priced.items) && priced.stales == old(priced.stales)
        decreases todo
      {
        var n :| n in todo;
        var before := queue;
        assert n !in ItemsOf(queue, a);
        var ok, replaced := EnqueueTx(txs[n]);
        todo := todo - {n};
        UnionStep(q, txs, todo + {n}, n);
      }
      assert txs - {} == txs;
    }

    /**
     Removes one transaction. The lists are edited by nonce alone; that this takes out the given
     transaction, and that nothing demoted is lost, rests on the pool's invariant.
     */
    method RemoveTx(tx: Tx, outOfBound: bool, ghost leaving: set<Tx>)
      requires if outOfBound then Valid() else Leaving(leaving) && tx in leaving
      modifies this`managed, this`pending, this`queue, this`all, priced
      ensures if outOfBound then Valid() else Leaving(leaving - {tx})
      ensures all == old(all) - {tx}
      ensures old(AllGapless()) ==> AllGapless()
      ensures SameElsewhere(old(pending), pending, tx.sender) && SameElsewhere(old(queue), queue, tx.sender)
      ensures tx !in old(all) || tx.nonce !in old(ItemsOf(pending, tx.sender)) ==> pending == old(pending) && managed == old(managed)
      ensures tx !in old(all) ==> queue == old(queue)
      ensures var p, q := old(ItemsOf(pending, tx.sender)), old(ItemsOf(queue, tx.sender));
        tx in old(all) ==>
          if tx.nonce in p then
            ItemsOf(pending, tx.sender) == Retired(p, tx.nonce) && ItemsOf(queue, tx.sender) == q + Above(p, tx.nonce)
          else
            tx.nonce in q && q[tx.nonce] == tx && ItemsOf(queue, tx.sender) == q - {tx.nonce}
    {
      hide Sound, Exact, ListsOk;
      if tx !in all {
        assert all - leaving == all - (leaving - {tx}) && all == all - {tx};
        return;
      }
      ForgetOne(all, leaving, tx);
      all := all - {tx};
      if outOfBound {
        priced.Removed(all, tx);
      }
      if tx.sender in pending && tx.nonce in pending[tx.sender].items {
        CutPending(tx);
      } else {
        CutQueue(tx);
      }
    }

    /** The pending half of removal: the run ends before the nonce, the rest of it goes to the queue. */
    method CutPending(tx: Tx)
      requires ListsOk(pending, true) && ListsOk(queue, false) && priced.Valid()
      requires Exact(pending, queue, all + {tx}) && tx !in all && tx.nonce in ItemsOf(pending, tx.sender)
      modifies this`managed, this`pending, this`queue, this`all, priced
      ensures ListsOk(pending, true) && ListsOk(queue, false) && priced.Valid() && Exact(pending, queue, all)
      ensures all == old(all) && priced.items == old(priced.items) && priced.stales == old(priced.stales)
      ensures SameElsewhere(old(pending), pending, tx.sender) && SameElsewhere(old(queue), queue, tx.sender)
      ensures ItemsOf(pending, tx.sender) == Retired(old(ItemsOf(pending, tx.sender)), tx.nonce)
      ensures ItemsOf(queue, tx.sender) == old(ItemsOf(queue, tx.sender)) + Above(old(ItemsOf(pending, tx.sender)), tx.nonce)
      ensures old(AllGapless()) ==> AllGapless()
    {
      hide Exact, CapsBound, Sound;
      var a := tx.sender;
      var list := pending[a];
      ghost var p, q, next := ItemsOf(pending, a), ItemsOf(queue, a), NextNonce(a);
      assert At(a);
      var kept := list.(items := Retired(list.items, tx.nonce));
      CapsBoundPart(list, kept.items);
      ListsOkShrunk(pending, true, a, kept);
      pending := Shrunk(pending, a, kept);
      forall n | n in Above(p, tx.nonce)
        ensures p[n].nonce == n && p[n].sender == a && p[n] in all && n !in q
      {
        CutIsFree(old(pending), queue, all, tx, n);
      }
      Requeue(a, Above(list.items, tx.nonce));
      ExactAfterCut(old(pending), old(queue), all, pending, queue, tx);
      if tx.nonce < NextNonce(a) {
        managed := managed[a := tx.nonce];
      }
      if old(AllGapless()) {
        GaplessCut(p, q, state.nonce(a), next, tx.nonce);
      }
    }

    /** The queue half of removal. */
    method CutQueue(tx: Tx)
      requires ListsOk(queue, false)
      requires Exact(pending, queue, all + {tx}) && tx !in all && tx.nonce !in ItemsOf(pending, tx.sender)
      modifies this`queue
      ensures ListsOk(queue, false) && Exact(pending, queue, all) && SameElsewhere(old(queue), queue, tx.sender)
      ensures tx.nonce in old(ItemsOf(queue, tx.sender)) && old(ItemsOf(queue, tx.sender))[tx.nonce] == tx
      ensures ItemsOf(queue, tx.sender) == old(ItemsOf(queue, tx.sender)) - {tx.nonce}
      ensures old(AllGapless()) ==> AllGapless()
    {
      var a := tx.sender;
      ghost var p, q := ItemsOf(pending, a), ItemsOf(queue, a);
      assert At(a);
      RemoveByNonceQueued(p, q, all + {tx}, tx);
      var list := queue[a].(items := queue[a].items - {tx.nonce});
      ListsOkShrunk(queue, false, a, list);
      queue := Shrunk(queue, a, list);
      ExactAfterCut(pending, old(queue), all, pending, queue, tx);
      if old(AllGapless()) {
        assert Gapless(p, q, state.nonce(a), NextNonce(a));
      }
    }

    /** Moves a transaction into its sender's pending list, replacing one it outbids, or forgets it. */
    method PromoteTx(a: Address, tx: Tx) returns (inserted: bool)
      requires ListsOk(pending, true) && priced.Valid()
      modifies this`managed, this`pending, this`all, priced
      ensures ListsOk(pending, true) && priced.Valid() && SameElsewhere(old(pending), pending, a)
      ensures inserted == Accepts(old(PendingOf(a)), tx, config.priceBump)
      ensures !inserted ==> pending == old(pending) && managed == old(managed) && all == old(all) - {tx}
      ensures inserted ==> ItemsOf(pending, a) == old(ItemsOf(pending, a))[tx.nonce := tx] && managed == old(managed)[a := tx.nonce + 1]
      ensures var before := old(ItemsOf(pending, a));
        inserted ==> all == (if tx.nonce in before then old(all) - {before[tx.nonce]} else old(all)) + {tx}
      ensures tx.nonce !in old(ItemsOf(pending, a)) && tx in old(all) ==>
                priced.items == old(priced.items) && priced.stales == old(priced.stales)
    {
      hide Sound, ListsOk, Bumps;
      var list := PendingOf(a);
      inserted := Accepts(list, tx, config.priceBump);
      if !inserted {
        all := all - {tx};
        priced.Removed(all, tx);
        return;
      }
      ListsOkAdded(pending, true, a, list, tx);
      pending := pending[a := Added(list, tx)];
      if tx.nonce in list.items {
        all := all - {list.items[tx.nonce]};
        priced.Removed(all, list.items[tx.nonce]);
      }
      if tx !in all {
        all := all + {tx};
        priced.Put(tx);
      }
      managed := managed[a := tx.nonce + 1];
    }

    /** Promotes a run of queued transactions in nonce order. None is refused: their nonces are not pending. */
    method PromoteRun(a: Address, run: Items) returns (ghost end: nat)
      requires ListsOk(pending, true) && priced.Valid() && Keyed(run)
      requires forall n :: n in run ==> run[n] in all && n !in ItemsOf(pending, a)
      modifies this`managed, this`pending, this`all, priced
      ensures ListsOk(pending, true) && priced.Valid() && SameElsewhere(old(pending), pending, a)
      ensures ItemsOf(pending, a) == old(ItemsOf(pending, a)) + run
      ensures all == old(all) && priced.items == old(priced.items) && priced.stales == old(priced.stales)
      ensures managed == if run == map[] then old(managed) else old(managed)[a := end]
      ensures forall lo: nat, hi: nat :: Interval(run, lo, hi) && lo < hi ==> end == hi
    {
      hide Sound, ListsOk, Bumps, IsFlat, Retired;
      ghost var p := ItemsOf(pending, a);
      var ready := Flat(run);
      FlatStep(p, ready, run, 0);
      for i := 0 to |ready|
        invariant ListsOk(pending, true) && priced.Valid() && SameElsewhere(old(pending), pending, a)
        invariant ItemsOf(pending, a) == p + Retired(run, Bound(ready, i))
        invariant all == old(all) && priced.items == old(priced.items) && priced.stales == old(priced.stales)
        invariant managed == if i == 0 then old(managed) else old(managed)[a := Bound(ready, i)]
      {
        FlatStep(p, ready, run, i);
        var ok := PromoteTx(a, ready[i]);
      }
      FlatStep(p, ready, run, |ready|);
      end := Bound(ready, |ready|);
      forall lo: nat, hi: nat | Interval(run, lo, hi) && lo < hi
        ensures end == hi
      {
        LastOfInterval(ready, run, lo, hi);
      }
    }

    ghost predicate GaplessAt(a: Address)
      reads this`state, this`managed, this`pending, this`queue
    {
      Gapless(ItemsOf(pending, a), ItemsOf(queue, a), state.nonce(a), NextNonce(a))
    }

    ghost predicate NearlyGaplessAt(a: Address)
      reads this`state, this`managed, this`pending, this`queue
    {
      NearlyGapless(ItemsOf(pending, a), ItemsOf(queue, a), state.nonce(a), NextNonce(a))
    }

    function QueueLimit(a: Address): Option<nat>
      reads this
    {
      LimitFor(locals, config.accountQueue, a)
    }

    ghost function Snap(): Snapshot
      reads this`pending, this`queue, this`managed
    {
      Snapshot(pending, queue, managed)
    }

    /** One account's turn in promoteExecutables: drop the stale and the unpayable, promote the run, cap the rest. */
    method PromoteAccount(a: Address)
      requires Valid()
      modifies this`managed, this`pending, this`queue, this`all, priced
      ensures Valid() && all <= old(all)
      ensures SameElsewhere(old(pending), pending, a) && SameElsewhere(old(queue), queue, a) && SameNonces(old(managed), managed, a)
      ensures a !in locals ==> |ItemsOf(queue, a)| <= config.accountQueue
      ensures PromotedAt(old(Snap()), Snap(), state, a, maxGas, QueueLimit(a))
      ensures DrainedAt(Snap(), state, a) && QueuePart(old(queue), queue, a)
      ensures forall tx :: tx in old(all) && tx !in all ==>
        tx.sender == a && DroppedAt(old(Snap()), Snap(), state, a, maxGas, QueueLimit(a), tx)
      ensures a in locals ==> forall tx :: tx in old(all) && tx !in all ==>
        tx.nonce < state.nonce(a) || Unpayable(tx, state.balance(a), maxGas, state.balance)
      ensures old(NearlyGaplessAt(a)) ==> GaplessAt(a)
    {
      hide Listed, Sound, CapsBound, Promote, Gapless, NearlyGapless, Interval, PromotedAt, DroppedAt, DrainedAt, QueuePart, SnapOk;
      CarryOutPlan(a);
      PromotedIsDrained(old(Snap()), Snap(), state, a, maxGas, QueueLimit(a));
      forall tx | a in locals && tx in old(all) && tx !in all
        ensures tx.nonce < state.nonce(a) || Unpayable(tx, state.balance(a), maxGas, state.balance)
      {
        LocalLoss(old(Snap()), Snap(), state, a, maxGas, tx);
      }
    }

    method CarryOutPlan(a: Address)
      requires Valid()
      modifies this`managed, this`pending, this`queue, this`all, priced
      ensures Valid() && all <= old(all)
      ensures SameElsewhere(old(pending), pending, a) && SameElsewhere(old(queue), queue, a) && SameNonces(old(managed), managed, a)
      ensures a !in locals ==> |ItemsOf(queue, a)| <= config.accountQueue
      ensures PromotedAt(old(Snap()), Snap(), state, a, maxGas, QueueLimit(a)) && QueuePart(old(queue), queue, a)
      ensures forall tx :: tx in old(all) && tx !in all ==>
        tx.sender == a && DroppedAt(old(Snap()), Snap(), state, a, maxGas, QueueLimit(a), tx)
      ensures old(NearlyGaplessAt(a)) ==> GaplessAt(a)
    {
      hide Exact, ListsOk, Sound, CapsBound, Promote, Gapless, NearlyGapless, Interval, DroppedAt, QueueParts;
      if a !in queue {
        EmptyQueueGapless(ItemsOf(pending, a), state.nonce(a), NextNonce(a));
        return;
      }
      ghost var list, p, next, limit := queue[a], ItemsOf(pending, a), NextNonce(a), QueueLimit(a);
      ValidSnap();
      PlanIsPart(Snap(), state, a, maxGas, limit);
      var end := ApplyPromotion(a);
      PlanEnd(list, state, a, maxGas, next, limit, end);
      forall tx | tx in old(all) && tx !in all
        ensures tx.sender == a && DroppedAt(old(Snap()), Snap(), state, a, maxGas, limit, tx)
      {
        PromotionLoses(old(Snap()), Snap(), old(all), all, state, a, maxGas, limit, tx);
      }
      if old(NearlyGaplessAt(a)) {
        var e := PromotionGapless(p, list, state, a, maxGas, next, limit);
      }
    }

    method ApplyPromotion(a: Address) returns (ghost end: nat)
      requires Valid() && a in queue
      modifies this`managed, this`pending, this`queue, this`all, priced
      ensures Valid() && all <= old(all) && !old(queue)[a].strict
      ensures SameElsewhere(old(pending), pending, a) && SameElsewhere(old(queue), queue, a)
      ensures a !in locals ==> |ItemsOf(queue, a)| <= config.accountQueue
      ensures var plan := Promote(old(queue)[a], state, a, maxGas, old(NextNonce(a)), QueueLimit(a));
        && ItemsOf(pending, a) == old(ItemsOf(pending, a)) + plan.run && ItemsOf(queue, a) == plan.rest.items
        && managed == (if plan.run == map[] then old(managed) else old(managed)[a := end])
        && forall lo: nat, hi: nat :: Interval(plan.run, lo, hi) && lo < hi ==> end == hi
    {
      hide Exact, Sound, CapsBound, Promote, QueueParts, Txs, Interval;
      assert At(a);
      var list := queue[a];
      var plan := Promote(list, state, a, maxGas, NextNonce(a), QueueLimit(a));
      PromotionParts(list, state, a, maxGas, NextNonce(a), QueueLimit(a));
      PartsPooled(pending, queue, all, a, plan.stale, plan.unpayable, plan.excess, plan.run, plan.rest.items);
      end := CarryOut(a, plan);
      ListsOkShrunk(queue, false, a, plan.rest);
      queue := Shrunk(queue, a, plan.rest);
      ExactAfterPromote(old(pending), old(queue), old(all), pending, queue, a,
                        plan.stale, plan.unpayable, plan.excess, plan.run, plan.rest.items);
    }

    /** Forgets and promotes what a promotion plan says; the queue itself is written back by the caller. */
    method CarryOut(a: Address, plan: Promotion) returns (ghost end: nat)
      requires ListsOk(pending, true) && priced.Valid() && Sound(priced.items, priced.stales, all)
      requires Txs(plan.stale) <= all && Txs(plan.unpayable) <= all - Txs(plan.stale)
      requires Txs(plan.excess) <= all - Txs(plan.stale) - Txs(plan.unpayable)
      requires Keyed(plan.run)
      requires forall n :: n in plan.run ==> plan.run[n] in all - Txs(plan.stale) - Txs(plan.unpayable) && n !in ItemsOf(pending, a)
      modifies this`managed, this`pending, this`all, priced
      ensures ListsOk(pending, true) && priced.Valid() && Sound(priced.items, priced.stales, all)
      ensures all == old(all) - Txs(plan.stale) - Txs(plan.unpayable) - Txs(plan.excess)
      ensures SameElsewhere(old(pending), pending, a) && ItemsOf(pending, a) == old(ItemsOf(pending, a)) + plan.run
      ensures managed == if plan.run == map[] then old(managed) else old(managed)[a := end]
      ensures forall lo: nat, hi: nat :: Interval(plan.run, lo, hi) && lo < hi ==> end == hi
    {
      hide ListsOk, Sound, Txs, Interval;
      Forget(Txs(plan.stale));
      Forget(Txs(plan.unpayable));
      end := PromoteRun(a, plan.run);
      Forget(Txs(plan.excess));
    }

    /** Drops an account's highest pending nonce. */
    method TrimPending(a: Address)
      requires Valid() && a in pending && 1 < Len(pending, a)
      modifies this`managed, this`pending, this`all, priced
      ensures Valid() && all <= old(all) && Lowered(old(managed), managed, state) && SameElsewhere(old(pending), pending, a) && a in pending
      ensures ItemsOf(pending, a) == Capped(old(ItemsOf(pending, a)), old(Len(pending, a)) - 1) && Len(pending, a) == old(Len(pending, a)) - 1
      ensures old(AllGapless()) ==> AllGapless()
    {
      hide Listed, Sound, Capped, Gapless, Lowered;
      ghost var p, next := ItemsOf(pending, a), NextNonce(a);
      ghost var hi := DropHighestPending(a);
      NothingLowered(old(managed), state);
      if hi < next { LoweredAt(old(managed), state, a, hi); }
      if old(AllGapless()) {
        assert At(a);
        GaplessTrim(p, ItemsOf(queue, a), state.nonce(a), next, hi);
      }
    }

    method DropHighestPending(a: Address) returns (ghost hi: nat)
      requires Valid() && a in pending && 1 < Len(pending, a)
      modifies this`managed, this`pending, this`all, priced
      ensures Valid() && all <= old(all) && SameElsewhere(old(pending), pending, a) && a in pending
      ensures var p := old(ItemsOf(pending, a));
        && IsGreatest(hi, p.Keys) && ItemsOf(pending, a) == p - {hi} == Capped(p, |p| - 1) && Len(pending, a) == |p| - 1
      ensures managed == if hi < old(NextNonce(a)) then old(managed)[a := hi] else old(managed)
    {
      hide Exact, Sound, CapsBound, Capped;
      assert At(a);
      var list := pending[a];
      var kept := Capped(list.items, |list.items| - 1);
      var drops := Without(list.items, kept);
      hi := HighestOnly(list.items);
      CapsBoundPart(list, kept);
      ListsOkShrunk(pending, true, a, list.(items := kept));
      pending := Shrunk(pending, a, list.(items := kept));
      ExactAfterTrim(old(pending), queue, all, pending, a, hi);
      var tx := drops[Lowest(drops.Keys)];
      Forget({tx});
      if tx.nonce < NextNonce(a) {
        managed := managed[a := tx.nonce];
      }
    }

    /** One round of equalisation: every listed account, all equally long, loses its highest pending nonce. */
    method TrimEach(offenders: seq<Address>, ghost level: nat)
      requires Valid() && Distinct(offenders) && 1 < level
      requires forall a :: a in offenders ==> a in pending && Len(pending, a) == level
      modifies this`managed, this`pending, this`all, priced
      ensures Valid() && all <= old(all) && Lowered(old(managed), managed, state) && CutFrom(old(pending), pending)
      ensures forall a :: a in offenders ==> Len(pending, a) == level - 1
      ensures forall a :: a !in offenders ==> Len(pending, a) == old(Len(pending, a))
      ensures Total(pending) == old(Total(pending)) - |offenders|
      ensures old(AllGapless()) ==> AllGapless()
    {
      hide Listed, Sound, Capped, AllGapless, CutFrom, SameElsewhere, Distinct, Total, Lowered;
      CutReflexive(pending);
      NothingLowered(managed, state);
      for i := 0 to |offenders|
        invariant Valid() && all <= old(all) && Lowered(old(managed), managed, state) && CutFrom(old(pending), pending)
        invariant forall a :: a in offenders[..i] ==> Len(pending, a) == level - 1
        invariant forall a :: a in offenders[i..] ==> a in pending && Len(pending, a) == level
        invariant forall a :: a !in offenders ==> Len(pending, a) == old(Len(pending, a))
        invariant Total(pending) == old(Total(pending)) - i
        invariant old(AllGapless()) ==> AllGapless()
      {
        ghost var before, nonces := pending, managed;
        var o := offenders[i];
        DistinctSplit(offenders, i);
        TrimPending(o);
        TrimIsCut(before, pending, o);
        CutTransitive(old(pending), before, pending);
        LoweredTwice(old(managed), nonces, managed, state);
      }
      assert offenders[..|offenders|] == offenders;
    }

    /** One round on the first k offenders, kept in step with the fairness bookkeeping. */
    method TrimRound(ghost m0: Lists, total: nat, offenders: seq<Address>, ghost spammers: set<Address>, ghost level: nat, ghost pen: nat, k: nat)
      returns (total': nat, ghost level': nat, ghost pen': nat)
      requires Valid() && CutFrom(m0, pending) && total == Total(pending) && config.globalSlots < total
      requires Levelled(m0, pending, locals, config.accountSlots, config.globalSlots, offenders, spammers, level, pen)
      requires 0 < k <= |offenders| && pen <= k && config.accountSlots < level && AllAt(pending, offenders[..k], level)
      requires forall a :: a in offenders[k..] || a in spammers ==> Len(pending, a) < level
      modifies this`managed, this`pending, this`all, priced
      ensures Valid() && all <= old(all) && Lowered(old(managed), managed, state) && CutFrom(m0, pending)
      ensures total' == Total(pending) < total && level' == level - 1 && pen' == k
      ensures Levelled(m0, pending, locals, config.accountSlots, config.globalSlots, offenders, spammers, level', pen')
      ensures AllAt(pending, offenders[..k], level')
      ensures forall a :: a !in offenders[..k] ==> Len(pending, a) == old(Len(pending, a))
      ensures old(AllGapless()) ==> AllGapless()
    {
      hide ListsOk, Exact, Sound, AllGapless, Levelled, CutFrom, Len, Total, Lowered;
      OffendersListed(m0, pending, locals, config.accountSlots, config.globalSlots, offenders, spammers, level, pen);
      ghost var before := pending;
      TrimEach(offenders[..k], level);
      CutTransitive(m0, before, pending);
      CutRound(m0, before, pending, locals, config.accountSlots, config.globalSlots, offenders, spammers, level, pen, k);
      total', level', pen' := total - k, level - 1, k;
    }

    /** Cuts the earlier offenders down to the newest one's length, or until the total is low enough. */
    method LevelDown(ghost m0: Lists, total: nat, offenders: seq<Address>, ghost spammers: set<Address>, ghost level: nat, ghost pen: nat)
      returns (total': nat, ghost level': nat, ghost pen': nat)
      requires Valid() && CutFrom(m0, pending) && total == Total(pending)
      requires Levelled(m0, pending, locals, config.accountSlots, config.globalSlots, offenders, spammers, level, pen)
      requires 1 < |offenders| && pen < |offenders| && AllAt(pending, offenders[..|offenders| - 1], level)
      requires var o := offenders[|offenders| - 1];
        config.accountSlots < Len(pending, o) <= level && forall a :: a in spammers ==> Len(pending, a) <= Len(pending, o)
      modifies this`managed, this`pending, this`all, priced
      ensures Valid() && all <= old(all) && Lowered(old(managed), managed, state) && CutFrom(m0, pending) && total' == Total(pending)
      ensures Levelled(m0, pending, locals, config.accountSlots, config.globalSlots, offenders, spammers, level', pen')
      ensures config.globalSlots < total' ==> AllAt(pending, offenders, level')
      ensures old(AllGapless()) ==> AllGapless()
    {
      hide Listed, Sound, AllGapless, Levelled, CutFrom, Lowered, Total;
      NothingLowered(managed, state);
      var k := |offenders| - 1;
      total', level', pen' := total, level, pen;
      OffendersListed(m0, pending, locals, config.accountSlots, config.globalSlots, offenders, spammers, level, pen);
      assert offenders[k] in offenders && offenders[k - 1] in offenders[..k];
      assert offenders == offenders[..k] + [offenders[k]];
      var threshold := |pending[offenders[k]].items|;
      assert offenders[k] !in offenders[..k] && forall a :: a in spammers ==> a !in offenders[..k] by {
        NewestApart(m0, pending, locals, config.accountSlots, config.globalSlots, offenders, spammers, level, pen);
      }
      while config.globalSlots < total' && threshold < |pending[offenders[k - 1]].items|
        invariant Valid() && all <= old(all) && Lowered(old(managed), managed, state) && CutFrom(m0, pending) && total' == Total(pending)
        invariant Levelled(m0, pending, locals, config.accountSlots, config.globalSlots, offenders, spammers, level', pen')
        invariant pen' <= k && AllAt(pending, offenders[..k], level') && threshold <= level'
        invariant forall a :: a in offenders ==> a in pending
        invariant Len(pending, offenders[k]) == threshold && forall a :: a in spammers ==> Len(pending, a) <= threshold
        invariant old(AllGapless()) ==> AllGapless()
        decreases total'
      {
        assert offenders[k..] == [offenders[k]];
        ghost var nonces := managed;
        total', level', pen' := TrimRound(m0, total', offenders, spammers, level', pen', k);
        LoweredTwice(old(managed), nonces, managed, state);
        OffendersListed(m0, pending, locals, config.accountSlots, config.globalSlots, offenders, spammers, level', pen');
      }
    }

    /** With no more offenders to take, cuts all of them until the total is low enough or their slots are reached. */
    method LevelOff(ghost m0: Lists, total: nat, offenders: seq<Address>, ghost spammers: set<Address>, ghost level: nat, ghost pen: nat)
      returns (total': nat, ghost level': nat, ghost pen': nat)
      requires Valid() && CutFrom(m0, pending) && total == Total(pending)
      requires Levelled(m0, pending, locals, config.accountSlots, config.globalSlots, offenders, spammers, level, pen)
      requires config.globalSlots < total ==> spammers == {} && AllAt(pending, offenders, level)
      modifies this`managed, this`pending, this`all, priced
      ensures Valid() && all <= old(all) && Lowered(old(managed), managed, state) && CutFrom(m0, pending) && total' == Total(pending)
      ensures Levelled(m0, pending, locals, config.accountSlots, config.globalSlots, offenders, spammers, level', pen')
      ensures total' <= config.globalSlots || (spammers == {} && (offenders == [] || level' == config.accountSlots))
      ensures old(AllGapless()) ==> AllGapless()
    {
      hide ListsOk, Exact, Sound, AllGapless, Levelled, CutFrom, Total, Lowered;
      NothingLowered(managed, state);
      total', level', pen' := total, level, pen;
      if offenders == [] { return; }
      var last := offenders[|offenders| - 1];
      OffendersListed(m0, pending, locals, config.accountSlots, config.globalSlots, offenders, spammers, level, pen);
      assert last in offenders && offenders[..|offenders|] == offenders && offenders[|offenders|..] == [];
      while config.globalSlots < total' && config.accountSlots < |pending[last].items|
        invariant Valid() && all <= old(all) && Lowered(old(managed), managed, state) && total' == Total(pending) && CutFrom(m0, pending)
        invariant Levelled(m0, pending, locals, config.accountSlots, config.globalSlots, offenders, spammers, level', pen')
        invariant pen' <= |offenders| && config.accountSlots <= level' && last in pending
        invariant config.globalSlots < total' ==> spammers == {} && AllAt(pending, offenders, level')
        invariant old(AllGapless()) ==> AllGapless()
        decreases total'
      {
        assert Len(pending, last) == level';
        ghost var nonces := managed;
        total', level', pen' := TrimRound(m0, total', offenders, spammers, level', pen', |offenders|);
        LoweredTwice(old(managed), nonces, managed, state);
        OffendersListed(m0, pending, locals, config.accountSlots, config.globalSlots, offenders, spammers, level', pen');
      }
      assert config.globalSlots < total' ==> Len(pending, last) == level';
    }

    /** Cuts the longest remote accounts down, fairly, while more is pending than the pool wants. */
    method Equalize() returns (ghost level: nat, ghost penalised: set<Address>)
      requires Valid()
      modifies this`managed, this`pending, this`all, priced
      ensures Valid() && all <= old(all) && Lowered(old(managed), managed, state) && CutFrom(old(pending), pending)
      ensures Fair(old(pending), pending, locals, config.accountSlots, config.globalSlots, level, penalised)
      ensures old(AllGapless()) ==> AllGapless()
      ensures old(Total(pending)) <= config.globalSlots ==> pending == old(pending) && managed == old(managed)
    {
      hide ListsOk, Exact, Sound, AllGapless, Levelled, CutFrom, Fair, Total, Lowered;
      NothingLowered(managed, state);
      var total := Count(pending);
      var slots, limit := config.accountSlots, config.globalSlots;
      var spammers := set a | a in pending && a !in locals && slots < |pending[a].items|;
      var offenders: seq<Address> := [];
      ghost var m0 := pending;
      ghost var pen: nat := 0;
      level := 0;
      StartLevelled(pending, locals, slots, limit, spammers);
      CutReflexive(pending);
      if total <= limit {
        LevelledIsFair(m0, pending, locals, slots, limit, offenders, spammers, level, pen);
        penalised := Elements(offenders[..pen]);
        return;
      }
      while limit < total && spammers != {}
        invariant Valid() && all <= old(all) && Lowered(old(managed), managed, state) && total == Total(pending) && CutFrom(m0, pending)
        invariant Levelled(m0, pending, locals, slots, limit, offenders, spammers, level, pen)
        invariant limit < total ==> AllAt(pending, offenders, level)
        invariant old(AllGapless()) ==> AllGapless()
        decreases spammers
      {
        ghost var longest := LongestExists(pending, spammers);
        var o :| o in spammers && forall b :: b in spammers ==> Len(pending, b) <= Len(pending, o);
        TakeOffender(m0, pending, locals, slots, limit, offenders, spammers, level, pen, o);
        OffendersListed(m0, pending, locals, slots, limit, offenders, spammers, level, pen);
        if offenders == [] { level := Len(pending, o); }
        spammers, offenders := spammers - {o}, offenders + [o];
        if |offenders| > 1 {
          assert offenders[..|offenders| - 1] + [o] == offenders;
          ghost var nonces := managed;
          total, level, pen := LevelDown(m0, total, offenders, spammers, level, pen);
          LoweredTwice(old(managed), nonces, managed, state);
        }
      }
      ghost var nonces := managed;
      total, level, pen := LevelOff(m0, total, offenders, spammers, level, pen);
      LoweredTwice(old(managed), nonces, managed, state);
      OffendersListed(m0, pending, locals, slots, limit, offenders, spammers, level, pen);
      LevelledIsFair(m0, pending, locals, slots, limit, offenders, spammers, level, pen);
      penalised := Elements(offenders[..pen]);
    }

    /** Removes a queued transaction: the queue loses exactly it, and nothing is moved. */
    method RemoveQueued(tx: Tx)
      requires Valid() && Has(ItemsOf(queue, tx.sender), tx)
      modifies this`managed, this`pending, this`queue, this`all, priced
      ensures Valid() && all == old(all) - {tx} && pending == old(pending) && managed == old(managed)
      ensures SameElsewhere(old(queue), queue, tx.sender) && ItemsOf(queue, tx.sender) == old(ItemsOf(queue, tx.sender)) - {tx.nonce}
      ensures old(AllGapless()) ==> AllGapless()
    {
      hide ListsOk, Exact, Sound, AllGapless;
      QueuedIsPooled(pending, queue, all, tx);
      RemoveTx(tx, true, {});
    }

    /** Removes an account's whole queue, lowest nonce first. */
    method RemoveQueue(a: Address)
      requires Valid()
      modifies this`managed, this`pending, this`queue, this`all, priced
      ensures Valid() && all <= old(all) && pending == old(pending) && managed == old(managed)
      ensures SameElsewhere(old(queue), queue, a) && ItemsOf(queue, a) == map[]
      ensures old(AllGapless()) ==> AllGapless()
    {
      hide ListsOk, Sound, AllGapless, IsFlat, Capped, Forwarded, Exact;
      if a !in queue { return; }
      ghost var q := ItemsOf(queue, a);
      QueueKeyed(pending, queue, all, a);
      var txs := Flat(queue[a].items);
      AllForwarded(txs, q);
      for i := 0 to |txs|
        invariant Valid() && all <= old(all) && pending == old(pending) && managed == old(managed)
        invariant SameElsewhere(old(queue), queue, a) && ItemsOf(queue, a) == Forwarded(q, Bound(txs, i))
        invariant old(AllGapless()) ==> AllGapless()
      {
        FlatShed(txs, q, i);
        RemoveQueued(txs[i]);
      }
    }

    /** Sheds up to `drop` transactions from an account's queue, highest nonces first; says how many are left to shed. */
    method ShedQueue(a: Address, drop: nat) returns (left: nat)
      requires Valid() && a in queue
      modifies this`managed, this`pending, this`queue, this`all, priced
      ensures Valid() && all <= old(all) && pending == old(pending) && managed == old(managed)
      ensures SameElsewhere(old(queue), queue, a)
      ensures var size := old(Len(queue, a));
        && left == (if size <= drop then drop - size else 0)
        && ItemsOf(queue, a) == Capped(old(ItemsOf(queue, a)), if size <= drop then 0 else size - drop)
      ensures old(AllGapless()) ==> AllGapless()
    {
      hide ListsOk, Sound, AllGapless, IsFlat, Capped, Exact;
      ghost var q := ItemsOf(queue, a);
      var size := |queue[a].items|;
      CapNothing(q, size);
      if size <= drop {
        RemoveQueue(a);
        CapToNothing(q);
        return drop - size;
      }
      QueueKeyed(pending, queue, all, a);
      var txs := Flat(queue[a].items);
      left := drop;
      var i := size;
      while 0 < i && 0 < left
        invariant 0 <= i <= size && left <= drop && size - i == drop - left
        invariant Valid() && all <= old(all) && pending == old(pending) && managed == old(managed)
        invariant SameElsewhere(old(queue), queue, a) && ItemsOf(queue, a) == Capped(q, i)
        invariant old(AllGapless()) ==> AllGapless()
      {
        i := i - 1;
        FlatShed(txs, q, i);
        RemoveQueued(txs[i]);
        left := left - 1;
      }
    }

    /** Sheds remote queues until the queue limit is met or only local queues remain. */
    method TruncateQueue()
      requires Valid()
      modifies this`managed, this`pending, this`queue, this`all, priced
      ensures Valid() && all <= old(all) && pending == old(pending) && managed == old(managed)
      ensures ShedFrom(old(queue), queue)
      ensures Total(queue) <= config.globalQueue || forall a :: a in queue ==> a in locals
      ensures if old(Total(queue)) <= config.globalQueue then queue == old(queue) else config.globalQueue <= Total(queue)
      ensures forall a :: a in locals ==> ItemsOf(queue, a) == old(ItemsOf(queue, a))
      ensures old(AllGapless()) ==> AllGapless()
    {
      hide ListsOk, Sound, AllGapless, Exact, Capped, ShedFrom, Total, SameElsewhere;
      var queued := Count(queue);
      ShedReflexive(queue);
      if queued <= config.globalQueue { return; }
      var addresses := set a | a in queue && a !in locals;
      var drop := queued - config.globalQueue;
      while 0 < drop && addresses != {}
        invariant Valid() && all <= old(all) && pending == old(pending) && managed == old(managed) && ShedFrom(old(queue), queue)
        invariant 0 <= drop && Total(queue) == config.globalQueue + drop
        invariant forall a :: a in addresses ==> a in queue && a !in locals
        invariant 0 < drop ==> forall a :: a in queue && a !in locals ==> a in addresses
        invariant forall a :: a in locals ==> ItemsOf(queue, a) == old(ItemsOf(queue, a))
        invariant old(AllGapless()) ==> AllGapless()
        decreases addresses
      {
        var a :| a in addresses;
        addresses := addresses - {a};
        ghost var before := queue;
        var size := |queue[a].items|;
        var left := ShedQueue(a, drop);
        ShedOne(old(queue), before, queue, a, if size <= drop then 0 else size - drop);
        ElsewhereListed(before, queue, a);
        EmptyGone(queue, a);
        drop := left;
      }
    }

    /** Accounts still to be processed may lag behind the chain; all others are gapless. */
    ghost predicate GaplessBut(todo: set<Address>)
      reads this`state, this`managed, this`pending, this`queue
    {
      forall a {:trigger At(a)} :: At(a) ==> NearlyGaplessAt(a) && (a !in todo ==> GaplessAt(a))
    }

    /** Promotes one account, which no longer lags behind afterwards. */
    method PromoteNext(a: Address, ghost todo: set<Address>, ghost todo': set<Address>)
      requires Valid() && todo - {a} <= todo'
      modifies this`managed, this`pending, this`queue, this`all, priced
      ensures Valid() && all <= old(all)
      ensures SameElsewhere(old(pending), pending, a) && SameElsewhere(old(queue), queue, a) && SameNonces(old(managed), managed, a)
      ensures PromotedAt(old(Snap()), Snap(), state, a, maxGas, QueueLimit(a))
      ensures DrainedAt(Snap(), state, a) && QueuePart(old(queue), queue, a)
      ensures forall tx :: tx in old(all) && tx !in all ==>
        tx.sender == a && DroppedAt(old(Snap()), Snap(), state, a, maxGas, QueueLimit(a), tx)
      ensures a !in locals ==> Len(queue, a) <= config.accountQueue
      ensures old(GaplessBut(todo)) ==> GaplessBut(todo')
    {
      hide ListsOk, Exact, Sound, Gapless, NearlyGapless, PromotedAt, DrainedAt, QueuePart, DroppedAt;
      PromoteAccount(a);
      if old(GaplessBut(todo)) {
        assert At(a);
        GaplessIsNearly(ItemsOf(pending, a), ItemsOf(queue, a), state.nonce(a), NextNonce(a));
        forall b | At(b)
          ensures NearlyGaplessAt(b) && (b !in todo' ==> GaplessAt(b))
        {
          assert b != a ==> old(NearlyGaplessAt(b)) && (b !in todo ==> old(GaplessAt(b)));
        }
      }
    }

    method PromoteAll(accounts: seq<Address>)
      requires Valid()
      modifies this`managed, this`pending, this`queue, this`all, priced
      ensures Valid() && all <= old(all)
      ensures forall a :: a in accounts && a !in locals ==> Len(queue, a) <= config.accountQueue
      ensures old(GaplessBut(Elements(accounts))) ==> AllGapless()
      ensures Distinct(accounts) ==> PromotedAll(old(Snap()), Snap(), state, maxGas, locals, config.accountQueue, Elements(accounts))
      ensures Distinct(accounts) ==> Losses(old(Snap()), Snap(), old(all), all, state, maxGas, locals, config.accountQueue, Elements(accounts))
      ensures DrainedAll(Snap(), state, Elements(accounts)) && QueuesPart(old(queue), queue)
    {
      hide ListsOk, Exact, Sound, Gapless, NearlyGapless, PromotedAt, PromotedAll, Distinct, DrainedAt, DrainedAll, QueuePart, QueuesPart, DroppedAt, Losses;
      NonePromoted(Snap(), state, maxGas, locals, config.accountQueue);
      NothingLost(Snap(), all, state, maxGas, locals, config.accountQueue);
      assert Elements(accounts[..0]) == {};
      for i := 0 to |accounts|
        invariant Valid() && all <= old(all)
        invariant Distinct(accounts) ==>
          && PromotedAll(old(Snap()), Snap(), state, maxGas, locals, config.accountQueue, Elements(accounts[..i]))
          && Losses(old(Snap()), Snap(), old(all), all, state, maxGas, locals, config.accountQueue, Elements(accounts[..i]))
        invariant DrainedAll(Snap(), state, Elements(accounts[..i])) && QueuesPart(old(queue), queue)
        invariant forall a :: a in accounts[..i] && a !in locals ==> Len(queue, a) <= config.accountQueue
        invariant old(GaplessBut(Elements(accounts))) ==> GaplessBut(Elements(accounts[i..]))
      {
        ghost var before, o, snap, was := queue, accounts[i], Snap(), all;
        assert accounts[..i + 1] == accounts[..i] + [o] && accounts[i..] == [o] + accounts[i + 1..];
        assert Elements(accounts[..i]) + {o} == Elements(accounts[..i + 1]);
        PromoteNext(accounts[i], Elements(accounts[i..]), Elements(accounts[i + 1..]));
        ElsewhereListed(before, queue, o);
        DrainedMore(snap, Snap(), state, Elements(accounts[..i]), o);
        QueuesPartMore(old(queue), before, queue, o);
        if Distinct(accounts) {
          DistinctSplit(accounts, i);
          PromotedMore(old(Snap()), snap, Snap(), state, maxGas, locals, config.accountQueue, Elements(accounts[..i]), o);
          LossesMore(old(Snap()), snap, Snap(), old(all), was, all, state, maxGas, locals, config.accountQueue, Elements(accounts[..i]), o);
        }
      }
      assert accounts[..|accounts|] == accounts;
    }

    /**
     promoteExecutables: promotes what the listed accounts can execute, then enforces the pending
     and the queue limit.
     */
    method PromoteExecutables(accounts: seq<Address>)
      requires Valid()
      modifies this`managed, this`pending, this`queue, this`all, priced
      ensures Valid() && all <= old(all) && WithinLimits()
      ensures forall a :: a in accounts && a !in locals ==> Len(queue, a) <= config.accountQueue
      ensures old(GaplessBut(Elements(accounts))) ==> AllGapless()
      ensures Distinct(accounts) && |old(all)| <= config.globalSlots && |old(all)| <= config.globalQueue ==>
        && PromotedAll(old(Snap()), Snap(), state, maxGas, locals, config.accountQueue, Elements(accounts))
        && Losses(old(Snap()), Snap(), old(all), all, state, maxGas, locals, config.accountQueue, Elements(accounts))
      ensures DrainedAll(Snap(), state, Elements(accounts)) && QueuesPart(old(queue), queue)
    {
      hide ListsOk, Exact, Sound, AllGapless, GaplessBut, CutFrom, PromotedAll, Distinct, Total, Lowered, DrainedAll, QueuesPart, Losses;
      PromoteAll(accounts);
      SubsetSize(all, old(all));
      LookupCount(pending, queue, all);
      ghost var promoted, was := Snap(), all;
      ghost var level, penalised := Equalize();
      ghost var before := queue;
      TruncateQueue();
      if Snap() == promoted { ListsDetermine(pending, queue, was, all); }
      ShedQueuesPart(before, queue);
      DrainedStays(promoted, Snap(), state, Elements(accounts));
      QueuesPartTwice(old(queue), before, queue);
      forall a
        ensures Len(queue, a) <= Len(before, a)
      {
        assert At(a);
      }
    }

    /** One account's turn in demoteUnexecutables. */
    method DemoteAccount(a: Address)
      requires Valid() && a in pending
      modifies this`pending, this`queue, this`all, priced
      ensures Valid() && all <= old(all) && old(pending)[a].strict
      ensures SameElsewhere(old(pending), pending, a) && SameElsewhere(old(queue), queue, a)
      ensures var plan := Demote(old(pending)[a], state, a, maxGas);
        ItemsOf(pending, a) == plan.rest.items && ItemsOf(queue, a) == old(ItemsOf(queue, a)) + plan.postponed
      ensures forall tx :: tx in old(all) && tx !in all ==> tx.sender == a && DemotedFor(old(pending), state, maxGas, tx)
    {
      hide Exact, Sound, CapsBound, Demote, QueueParts, Txs;
      assert At(a);
      var list := pending[a];
      var plan := Demote(list, state, a, maxGas);
      DemotionParts(list, state, a, maxGas);
      DemotionCaps(list, state, a, maxGas);
      DemotionPooled(pending, queue, all, a, plan.stale, plan.unpayable, plan.postponed, plan.rest.items);
      Forget(Txs(plan.stale));
      Forget(Txs(plan.unpayable));
      Requeue(a, plan.postponed);
      ListsOkShrunk(pending, true, a, plan.rest);
      pending := Shrunk(pending, a, plan.rest);
      ExactAfterDemote(old(pending), old(queue), old(all), pending, queue, a,
                       plan.stale, plan.unpayable, plan.postponed, plan.rest.items);
      forall tx | tx in old(all) && tx !in all
        ensures tx.sender == a && DemotedFor(old(pending), state, maxGas, tx)
      {
        LostBySender(old(pending), old(queue), old(all), pending, queue, all, a, tx);
        DemotionLoses(old(pending), old(queue), old(all), pending, queue, all, state, maxGas, tx);
      }
    }

    ghost predicate AllRan()
      reads this`pending, this`queue
    {
      forall a {:trigger At(a)} :: At(a) ==> Ran(ItemsOf(pending, a), ItemsOf(queue, a))
    }

    ghost predicate SettledBut(todo: set<Address>)
      reads this`state, this`pending, this`queue
    {
      forall a {:trigger At(a)} :: At(a) ==>
        if a in todo then Ran(ItemsOf(pending, a), ItemsOf(queue, a))
        else Settled(ItemsOf(pending, a), ItemsOf(queue, a), state.nonce(a))
    }

    method DemoteUnexecutables()
      requires Valid()
      modifies this`pending, this`queue, this`all, priced
      ensures Valid() && all <= old(all)
      ensures old(AllRan()) ==> SettledBut({})
      ensures forall a {:trigger At(a)} :: At(a) ==> PlanDemoted(old(pending), old(queue), pending, queue, state, a, maxGas)
      ensures forall tx :: tx in old(all) && tx !in all ==> DemotedFor(old(pending), state, maxGas, tx)
    {
      hide ListsOk, Exact, Sound, Ran, Settled, Demote, DemotedFor;
      var todo := pending.Keys;
      assert AllRan() ==> SettledBut(todo) by {
        forall a | a !in pending
          ensures Settled(ItemsOf(pending, a), ItemsOf(queue, a), state.nonce(a))
        {
          NothingPending(ItemsOf(queue, a), state.nonce(a));
        }
      }
      while todo != {}
        invariant Valid() && all <= old(all) && todo <= pending.Keys
        invariant old(AllRan()) ==> SettledBut(todo)
        invariant forall a {:trigger At(a)} :: At(a) ==>
          if a in todo then pending[a] == old(pending)[a] && a in old(pending) && ItemsOf(queue, a) == ItemsOf(old(queue), a)
          else PlanDemoted(old(pending), old(queue), pending, queue, state, a, maxGas)
        decreases todo
      {
        var a :| a in todo;
        assert At(a);
        ghost var list, q, p0, q0 := pending[a], ItemsOf(queue, a), pending, queue;
        ghost var settled := SettledBut(todo);
        assert settled ==> At(a) && Ran(list.items, q);
        DemoteAccount(a);
        ElsewhereListed(p0, pending, a);
        ElsewhereListed(q0, queue, a);
        if settled {
          DemotionSettles(q, list, state, a, maxGas);
        }
        todo := todo - {a};
      }
      forall tx | tx in old(all) && tx !in all
        ensures DemotedFor(old(pending), state, maxGas, tx)
      {
        assert At(tx.sender);
        DemotionLoses(old(pending), old(queue), old(all), pending, queue, all, state, maxGas, tx);
      }
    }

    /** Tracks every account with pending transactions up to its highest one. */
    method TrackPending()
      requires ListsOk(pending, true)
      modifies this`managed
      ensures managed.Keys == old(managed).Keys + pending.Keys
      ensures forall a :: a in pending ==> HighestPlusOne(ItemsOf(pending, a), managed[a])
    {
      var todo := pending.Keys;
      while todo != {}
        invariant todo <= pending.Keys && managed.Keys == old(managed).Keys + (pending.Keys - todo)
        invariant forall a :: a in pending && a !in todo ==> HighestPlusOne(ItemsOf(pending, a), managed[a])
        decreases todo
      {
        var a :| a in todo;
        assert At(a);
        var hi := Highest(pending[a].items.Keys);
        managed := managed[a := hi + 1];
        todo := todo - {a};
      }
    }

    /** The shortcoming each validation error stands for. */
    predicate Faulty(tx: Tx, e: Error)
      reads this`state, this`maxGas, this`gasPrice
    {
      match e
      case OversizedData => MAX_TX_SIZE < tx.size
      case NegativeValue => tx.amount < 0
      case NegativeFee => tx.fee < 0
      case GasLimit => maxGas < tx.gas
      case ForbiddenAddress => tx.sender == STAKING_ADDRESS
      case Underpriced => tx.price < gasPrice
      case NonceTooLow => tx.nonce < state.nonce(tx.sender)
      case PayerFunds => tx.ThirdPartyPayer() && state.balance(tx.payer) < tx.GasCost()
      case SenderFunds => tx.ThirdPartyPayer() && state.balance(tx.sender) < tx.AmountCost()
      case Funds => !tx.ThirdPartyPayer() && state.balance(tx.sender) < tx.Cost()
      case GasOverflow => MAX_UINT64 < IntrinsicCost(tx.data, tx.Creation())
      case IntrinsicGasTooLow => tx.gas < IntrinsicCost(tx.data, tx.Creation())
      case Known => false
      case ReplaceUnderpriced => false
    }

    /** An error names a shortcoming the transaction has, and there is an error whenever it has one. */
    method ValidateTx(tx: Tx) returns (err: Option<Error>)
      ensures err.Some? ==> Faulty(tx, err.value)
      ensures err.None? ==> forall e :: !Faulty(tx, e)
    {
      if MAX_TX_SIZE < tx.size { return Some(OversizedData); }
      if tx.amount < 0 { return Some(NegativeValue); }
      if tx.fee < 0 { return Some(NegativeFee); }
      if maxGas < tx.gas { return Some(GasLimit); }
      if tx.sender == STAKING_ADDRESS { return Some(ForbiddenAddress); }
      if tx.price < gasPrice { return Some(Error.Underpriced); }
      if tx.nonce < state.nonce(tx.sender) { return Some(NonceTooLow); }
      if tx.ThirdPartyPayer() {
        if state.balance(tx.payer) < tx.GasCost() { return Some(PayerFunds); }
        if state.balance(tx.sender) < tx.AmountCost() { return Some(SenderFunds); }
      } else {
        if state.balance(tx.sender) < tx.Cost() { return Some(Funds); }
      }
      var intrinsic := IntrinsicGas(tx.data, tx.Creation());
      if intrinsic.None? { return Some(GasOverflow); }
      if tx.gas < intrinsic.value { return Some(IntrinsicGasTooLow); }
      err := None;
    }

    /** Removes the transactions the price heap has just given up; one may be listed twice. */
    method RemoveAll(drop: seq<Tx>)
      requires Leaving(Elements(drop))
      modifies this`managed, this`pending, this`queue, this`all, priced
      ensures Valid() && all == old(all) - Elements(drop)
      ensures old(AllGapless()) ==> AllGapless()
    {
      hide Listed, Sound, AllGapless;
      for i := 0 to |drop|
        invariant Leaving(Elements(drop[i..])) && all == old(all) - Elements(drop[..i])
        invariant old(AllGapless()) ==> AllGapless()
      {
        ghost var tx := drop[i];
        RemoveTx(drop[i], false, Elements(drop[i..]));
        DropNext(drop, i);
        assert all - (Elements(drop[i..]) - {tx}) == all - Elements(drop[i + 1..]);
      }
      assert drop[..|drop|] == drop && drop[|drop|..] == [];
      assert all - Elements(drop[|drop|..]) == all;
    }

    /** When the pool is full, refuses the cheapest or makes room by dropping the worst remote transactions. */
    method MakeRoom(tx: Tx) returns (refused: bool)
      requires Valid() && config.globalSlots + config.globalQueue <= |all|
      modifies this`managed, this`pending, this`queue, this`all, priced
      ensures Valid() && all <= old(all)
      ensures refused <==> tx.sender !in locals && old(all) != {} && forall t :: t in old(all) ==> tx.price <= t.price
      ensures if refused then all == old(all)
              else MadeRoom(old(all), all, locals, old(priced.items), config.globalSlots + config.globalQueue)
      ensures old(AllGapless()) ==> AllGapless()
    {
      hide ListsOk, Exact, Sound, AllGapless, NoneRepeated, Entries, MadeRoom;
      refused := priced.Underpriced(tx, all, locals);
      if refused { return; }
      SameRepeats(old(priced.items), priced.items, all, locals);
      var drop := priced.Discard(|all| - (config.globalSlots + config.globalQueue - 1), all, locals);
      DropMakesRoom(all, drop, locals, old(priced.items), config.globalSlots + config.globalQueue);
      RemoveAll(drop);
    }

    /** A transaction whose nonce is already pending replaces the pending one if it outbids it. */
    method ReplacePending(tx: Tx) returns (inserted: bool)
      requires Valid() && tx !in all && tx.nonce in ItemsOf(pending, tx.sender)
      modifies this`pending, this`all, priced
      ensures Valid()
      ensures var was := old(ItemsOf(pending, tx.sender))[tx.nonce].price;
        inserted <==> was < tx.price && was * (100 + config.priceBump) < (tx.price + 1) * 100
      ensures if inserted then all == old(all) - {old(ItemsOf(pending, tx.sender))[tx.nonce]} + {tx} else all == old(all) && pending == old(pending)
      ensures old(AllGapless()) ==> AllGapless()
    {
      hide Exact, Sound, CapsBound, Bumps;
      var a := tx.sender;
      assert At(a);
      var list := pending[a];
      BumpsExact(list.items[tx.nonce], tx, config.priceBump);
      inserted := Accepts(list, tx, config.priceBump);
      if !inserted { return; }
      var previous := list.items[tx.nonce];
      SlotPooled(pending, queue, all, tx);
      ListsOkAdded(pending, true, a, list, tx);
      pending := pending[a := Added(list, tx)];
      ghost var before := all;
      all := all - {previous};
      assert all + {previous} == before;
      priced.Removed(all, previous);
      ghost var items, stales := priced.items, priced.stales;
      all := all + {tx};
      priced.Put(tx);
      SoundPut(items, stales, all - {tx}, priced.items, tx);
      ExactAfterReplace(old(pending), queue, old(all), pending, queue, all, tx);
      if old(AllGapless()) {
        SameRun(old(pending)[a].items, list.items[tx.nonce := tx], ItemsOf(queue, a), state.nonce(a), NextNonce(a));
      }
    }

    /** A transaction whose nonce is not pending goes to the queue, possibly replacing a queued one it outbids. */
    method QueueNew(tx: Tx) returns (inserted: bool, replaced: bool)
      requires Valid() && tx !in all && tx.nonce !in ItemsOf(pending, tx.sender)
      modifies this`queue, this`all, priced
      ensures Valid()
      ensures inserted <==>
        (tx.nonce in old(ItemsOf(queue, tx.sender)) ==>
           var was := old(ItemsOf(queue, tx.sender))[tx.nonce].price;
           was < tx.price && was * (100 + config.priceBump) < (tx.price + 1) * 100)
      ensures replaced == (inserted && tx.nonce in old(ItemsOf(queue, tx.sender)))
      ensures if inserted then all == (if replaced then old(all) - {old(ItemsOf(queue, tx.sender))[tx.nonce]} else old(all)) + {tx}
              else all == old(all) && queue == old(queue)
      ensures inserted ==> SameElsewhere(old(queue), queue, tx.sender)
                           && ItemsOf(queue, tx.sender) == old(ItemsOf(queue, tx.sender))[tx.nonce := tx]
      ensures old(AllGapless()) && state.nonce(tx.sender) <= tx.nonce ==> AllGapless()
    {
      hide Exact, Sound, ListsOk, Bumps;
      assert At(tx.sender);
      ghost var q := ItemsOf(queue, tx.sender);
      if tx.nonce in QueueOf(tx.sender).items {
        SlotPooled(pending, queue, all, tx);
        BumpsExact(q[tx.nonce], tx, config.priceBump);
      }
      inserted, replaced := EnqueueTx(tx);
      if inserted {
        ExactAfterReplace(pending, old(queue), old(all), pending, queue, all, tx);
      }
    }

    /**
     add: takes a valid transaction into the pool. `room` is the pool once a full one has made room; the
     transaction then takes its sender's slot for the nonce, and nothing else changes.
     */
    method Add(tx: Tx, local: bool) returns (replaced: bool, err: Option<Error>, ghost room: set<Tx>)
      requires Valid()
      modifies this`managed, this`pending, this`queue, this`all, this`locals, priced
      ensures Valid() && room <= old(all)
      ensures RoomAsNeeded(old(all), room, old(locals), old(priced.items), config.globalSlots + config.globalQueue, local, err)
      ensures all == if err.Some? then room else (set t | t in room && !(t.sender == tx.sender && t.nonce == tx.nonce)) + {tx}
      ensures replaced <==> err.None? && SlotTaken(room, tx.sender, tx.nonce)
      ensures err == Some(Known) <==> tx in old(all)
      ensures Answer(tx, err)
      ensures err.Some? && err != Some(Known) ==>
        || Faulty(tx, err.value)
        || (err == Some(ReplaceUnderpriced) && SlotTaken(room, tx.sender, tx.nonce))
        || (err == Some(Error.Underpriced) && !local && tx.sender !in old(locals) && config.globalSlots + config.globalQueue <= |old(all)|
            && forall t :: t in old(all) ==> tx.price <= t.price)
      ensures locals == old(locals) || (local && locals == old(locals) + {tx.sender})
      ensures local || |old(all)| < config.globalSlots + config.globalQueue ==> room == old(all) && (err.None? || Snap() == old(Snap()))
      ensures (local || |old(all)| < config.globalSlots + config.globalQueue) && err.None? && tx.nonce !in old(ItemsOf(pending, tx.sender)) ==>
        && pending == old(pending) && managed == old(managed) && SameElsewhere(old(queue), queue, tx.sender)
        && ItemsOf(queue, tx.sender) == old(ItemsOf(queue, tx.sender))[tx.nonce := tx]
      ensures old(AllGapless()) ==> AllGapless()
    {
      hide ListsOk, Exact, Sound, AllGapless, Bumps, SlotTaken, MadeRoom, NoneRepeated, SameElsewhere;
      replaced, room := false, all;
      if tx in all { return false, Some(Known), all; }
      err := ValidateTx(tx);
      if err.Some? { return; }
      assert state.nonce(tx.sender) <= tx.nonce by { assert !Faulty(tx, NonceTooLow); }
      hide Faulty;
      if !local && config.globalSlots + config.globalQueue <= |all| {
        var refused := MakeRoom(tx);
        if refused { return false, Some(Error.Underpriced), room; }
        RoomIsPart(old(all), all, locals, old(priced.items), config.globalSlots + config.globalQueue);
        room := all;
      }
      SlotUnique(pending, queue, all, tx);
      if tx.sender in pending && tx.nonce in pending[tx.sender].items {
        var inserted := ReplacePending(tx);
        if !inserted { return false, Some(ReplaceUnderpriced), room; }
        return true, None, room;
      }
      var inserted, old_ := QueueNew(tx);
      if !inserted { return false, Some(ReplaceUnderpriced), room; }
      if local { locals := locals + {tx.sender}; }
      replaced, err := old_, None;
    }

    lemma GaplessIsGaplessBut(todo: set<Address>)
      requires AllGapless()
      ensures GaplessBut(todo)
    {}

    /** addTx: adds one transaction and, if it took a new slot, promotes what its sender can now execute. */
    method AddTx(tx: Tx, local: bool) returns (err: Option<Error>, ghost room: set<Tx>, ghost staged: Snapshot)
      requires Valid()
      modifies this`managed, this`pending, this`queue, this`all, this`locals, priced
      ensures Valid() && (old(AllGapless()) ==> AllGapless())
      ensures err == Some(Known) <==> tx in old(all)
      ensures RoomAsNeeded(old(all), room, old(locals), old(priced.items), config.globalSlots + config.globalQueue, local, err)
      ensures var after := (set t | t in room && !(t.sender == tx.sender && t.nonce == tx.nonce)) + {tx};
        if err.Some? then all == room
        else if SlotTaken(room, tx.sender, tx.nonce) then all == after
        else all <= after && WithinLimits() && DrainedAt(Snap(), state, tx.sender) && (tx.sender !in locals ==> Len(queue, tx.sender) <= config.accountQueue)
      ensures Small(|old(all)| + 1) && err.Some? ==> Faulty(tx, err.value) || SlotTaken(old(all), tx.sender, tx.nonce)
      ensures Small(|old(all)| + 1) && err.None? && !SlotTaken(old(all), tx.sender, tx.nonce) ==>
        && staged.pending == old(pending) && staged.managed == old(managed) && SameElsewhere(old(queue), staged.queue, tx.sender)
        && ItemsOf(staged.queue, tx.sender) == old(ItemsOf(queue, tx.sender))[tx.nonce := tx]
        && SnapOk(staged) && PromotedAll(staged, Snap(), state, maxGas, locals, config.accountQueue, {tx.sender})
        && Losses(staged, Snap(), old(all) + {tx}, all, state, maxGas, locals, config.accountQueue, {tx.sender})
    {
      hide ListsOk, Exact, Sound, AllGapless, GaplessBut, SlotTaken, RoomAsNeeded, SameElsewhere, PromotedAll, Faulty, DrainedAt, Losses, QueuesPart;
      SlotUnique(pending, queue, all, tx);
      if tx in all { PooledIsTaken(all, tx); }
      var replaced;
      replaced, err, room := Add(tx, local);
      staged := Snap();
      ValidSnap();
      if err.None? && !replaced {
        SubsetSize(all, old(all) + {tx});
        assert Elements([tx.sender]) == {tx.sender};
        if AllGapless() { GaplessIsGaplessBut(Elements([tx.sender])); }
        PromoteExecutables([tx.sender]);
      }
    }

    /**
     Adds one transaction after the other. Whatever is pooled in the end was pooled before or accepted. As
     long as the pool cannot fill up, no slot is ever vacated, every accepted transaction's slot is taken,
     and every account with a newly taken slot is listed.
     */
    method AddEach(txs: seq<Tx>, local: bool) returns (errs: seq<Option<Error>>, dirty: set<Address>)
      requires Valid()
      modifies this`managed, this`pending, this`queue, this`all, this`locals, priced
      ensures Valid() && (old(AllGapless()) ==> AllGapless()) && |errs| == |txs|
      ensures Sourced(old(all), all, txs, errs)
      ensures forall i :: 0 <= i < |txs| ==> Answer(txs[i], errs[i])
      ensures local || |old(all)| + |txs| <= config.globalSlots + config.globalQueue ==> SlotsGrow(old(all), all, txs, errs, dirty)
      ensures local || |old(all)| + |txs| <= config.globalSlots + config.globalQueue ==>
        forall i :: 0 <= i < |txs| ==> Justified(old(all), txs, errs, i)
      ensures (local || |old(all)| + |txs| <= config.globalSlots + config.globalQueue) && NonePending(old(pending), txs) ==>
        Staged(old(Snap()), Snap(), txs, Taken(errs))
      ensures |all| <= |old(all)| + |txs|
      ensures txs == [] ==> dirty == {} && all == old(all) && pending == old(pending) && queue == old(queue)
                            && managed == old(managed) && locals == old(locals)
      ensures !local ==> locals == old(locals)
    {
      hide Listed, Sound, AllGapless, SlotTaken, Batch, Faulty, Answer, Justified;
      hide SlotSeen, RoomAsNeeded, NonePending, SameElsewhere, Sourced, SlotsGrow, Staged, Taken;
      errs, dirty := [], {};
      ghost var ample := local || |all| + |txs| <= config.globalSlots + config.globalQueue;
      ghost var staging := ample && NonePending(pending, txs);
      NoBatch(all, Snap(), txs, ample, staging);
      for i := 0 to |txs|
        invariant Valid() && (old(AllGapless()) ==> AllGapless()) && |errs| == i && (!local ==> locals == old(locals))
        invariant i == 0 ==> dirty == {} && all == old(all) && pending == old(pending) && queue == old(queue)
                             && managed == old(managed) && locals == old(locals)
        invariant forall j :: 0 <= j < i ==> Answer(txs[j], errs[j])
        invariant ample ==> forall j :: 0 <= j < i ==> Justified(old(all), txs, errs, j)
        invariant Batch(old(all), all, old(Snap()), Snap(), txs, errs, dirty, ample, staging)
      {
        ghost var before, snap := all, Snap();
        BatchFacts(old(all), all, old(Snap()), Snap(), txs, errs, dirty, ample, staging);
        NotPending(old(pending), txs, i);
        SlotSource(old(all), all, old(Snap()), Snap(), txs, errs, dirty, ample, staging, txs[i]);
        var replaced, err, room := Add(txs[i], local);
        if ample { JustifyOne(old(all), before, txs, errs, err); }
        BatchOne(old(all), before, all, old(Snap()), snap, Snap(), txs, errs, dirty, ample, staging, err, replaced);
        if err.None? && !replaced { dirty := dirty + {txs[i].sender}; }
        errs := errs + [err];
      }
      BatchDone(old(all), all, old(Snap()), Snap(), txs, errs, dirty, ample, staging);
    }

    /** While there is room, a transaction is refused for a shortcoming of its own or because its slot was taken, before or in the batch. */
    ghost predicate Justified(all0: set<Tx>, txs: seq<Tx>, errs: seq<Option<Error>>, i: nat)
      requires i < |txs| && i < |errs|
      reads this`state, this`maxGas, this`gasPrice
    {
      errs[i].Some? ==> Faulty(txs[i], errs[i].value) || SlotSeen(all0, txs, errs, i, txs[i])
    }

    lemma JustifyOne(all0: set<Tx>, before: set<Tx>, txs: seq<Tx>, errs: seq<Option<Error>>, err: Option<Error>)
      requires |errs| < |txs|
      requires SlotTaken(before, txs[|errs|].sender, txs[|errs|].nonce) ==> SlotSeen(all0, txs, errs, |errs|, txs[|errs|])
      requires forall j :: 0 <= j < |errs| ==> Justified(all0, txs, errs, j)
      requires err.Some? ==> Faulty(txs[|errs|], err.value) || txs[|errs|] in before || SlotTaken(before, txs[|errs|].sender, txs[|errs|].nonce)
      ensures forall j :: 0 <= j <= |errs| ==> Justified(all0, txs, errs + [err], j)
    {
      hide Faulty;
      forall j | 0 <= j <= |errs|
        ensures Justified(all0, txs, errs + [err], j)
      {
        SeenOn(all0, txs, errs, err, j);
        if j < |errs| { assert Justified(all0, txs, errs, j); }
      }
    }

    /** An answer other than acceptance names a shortcoming, a known transaction, or one that bids too little. */
    ghost predicate Answer(tx: Tx, err: Option<Error>)
      reads this`state, this`maxGas, this`gasPrice
    {
      err.Some? && err != Some(Known) && err != Some(Error.Underpriced) && err != Some(ReplaceUnderpriced) ==> Faulty(tx, err.value)
    }

    /** addTxsLocked: adds a batch, then promotes for every account that got something new. */
    method AddTxs(txs: seq<Tx>, local: bool) returns (errs: seq<Option<Error>>, ghost dirty: set<Address>, ghost staged: Snapshot)
      requires Valid()
      modifies this`managed, this`pending, this`queue, this`all, this`locals, priced
      ensures Valid() && (old(AllGapless()) ==> AllGapless()) && |errs| == |txs|
      ensures Sourced(old(all), all, txs, errs)
      ensures forall i :: 0 <= i < |txs| ==> Answer(txs[i], errs[i])
      ensures dirty != {} ==> WithinLimits() && DrainedAll(Snap(), state, dirty) && forall a :: a in dirty && a !in locals ==> Len(queue, a) <= config.accountQueue
      ensures Small(|old(all)| + |txs|) ==> forall i :: 0 <= i < |txs| ==> Justified(old(all), txs, errs, i)
      ensures Small(|old(all)| + |txs|) && NonePending(old(pending), txs) ==>
        && Staged(old(Snap()), staged, txs, Taken(errs))
        && PromotedAll(staged, Snap(), state, maxGas, locals, config.accountQueue, dirty)
        && forall i :: 0 <= i < |txs| && errs[i].None? && !SlotTaken(old(all), txs[i].sender, txs[i].nonce) ==> txs[i].sender in dirty
      ensures |all| <= |old(all)| + |txs| && (!local ==> locals == old(locals)) && SnapOk(staged)
      ensures txs == [] ==> all == old(all) && pending == old(pending) && queue == old(queue) && managed == old(managed) && locals == old(locals)
    {
      hide ListsOk, Exact, Sound, AllGapless, GaplessBut, Faulty, Accepted, SlotTaken;
      hide SlotsGrow, Staged, PromotedAll, NonePending, Justified, DrainedAll, Losses, QueuesPart;
      var listed;
      errs, listed := AddEach(txs, local);
      dirty, staged := listed, Snap();
      GrownListed(old(all), all, txs, errs, dirty);
      NonePromoted(Snap(), state, maxGas, locals, config.accountQueue);
      if listed != {} {
        var accounts := Enumerate(listed);
        NoRepeats(accounts, listed);
        assert Elements(accounts) == listed;
        if AllGapless() { GaplessIsGaplessBut(Elements(accounts)); }
        ghost var mid := all;
        PromoteExecutables(accounts);
        SubsetSize(all, mid);
      }
    }

    /** SetGasPrice: raises or lowers the minimum price; only local transactions survive below it. */
    method SetGasPrice(price: nat)
      requires Valid()
      modifies this`gasPrice, this`managed, this`pending, this`queue, this`all, priced
      ensures Valid() && gasPrice == price && (old(AllGapless()) ==> AllGapless())
      ensures all == set t | t in old(all) && (price <= t.price || t.sender in locals)
    {
      hide ListsOk, Exact, Sound, AllGapless;
      gasPrice := price;
      var drop := priced.Cap(price, all, locals);
      RemoveAll(drop);
    }

    /** The eviction tick: remote accounts whose last activity is too old lose their whole queue. */
    method Evict(expired: set<Address>)
      requires Valid()
      modifies this`managed, this`pending, this`queue, this`all, priced
      ensures Valid() && (old(AllGapless()) ==> AllGapless())
      ensures pending == old(pending) && managed == old(managed)
      ensures forall a :: ItemsOf(queue, a) == if a in expired && a !in locals then map[] else old(ItemsOf(queue, a))
    {
      hide ListsOk, Exact, Sound, AllGapless;
      var todo := queue.Keys;
      while todo != {}
        invariant Valid() && (old(AllGapless()) ==> AllGapless()) && pending == old(pending) && managed == old(managed)
        invariant todo <= old(queue).Keys
        invariant forall a :: ItemsOf(queue, a) == if a in expired && a !in locals && a !in todo then map[] else old(ItemsOf(queue, a))
        decreases todo
      {
        var a :| a in todo;
        todo := todo - {a};
        if a !in locals && a in expired {
          ghost var before := queue;
          RemoveQueue(a);
          ElsewhereListed(before, queue, a);
        }
      }
    }

    /**
     reset: moves the pool to a new chain state. Transactions that only the abandoned branch held
     are added again; the pending lists are realigned with the new nonces; everything executable is
     promoted. With nothing to add again, a gapless pool is gapless against the new state. Below the
     limits, every account goes through exactly the plans of the four phases.
     */
    method Reset(chain: ChainState, maxGas: nat, reinject: seq<Tx>)
      returns (ghost errs: seq<Option<Error>>, ghost dirty: set<Address>, ghost staged: Snapshot, ghost added: Snapshot, ghost aligned: Snapshot)
      requires Valid()
      modifies this`state, this`maxGas, this`managed, this`pending, this`queue, this`all, this`locals, priced
      ensures Valid() && state == chain && this.maxGas == maxGas && locals == old(locals)
      ensures WithinLimits()
      ensures old(AllGapless()) && reinject == [] ==> AllGapless()
      ensures |errs| == |reinject| && Sourced(old(all), all, reinject, errs)
      ensures SnapOk(staged) && SnapOk(added) && SnapOk(aligned)
      ensures forall i :: 0 <= i < |reinject| ==> Answer(reinject[i], errs[i])
      ensures Small(|old(all)| + |reinject|) ==> forall i :: 0 <= i < |reinject| ==> Justified(old(all), reinject, errs, i)
      ensures Small(|old(all)| + |reinject|) && NonePending(old(pending), reinject) ==>
        && Staged(Snapshot(old(pending), old(queue), map[]), staged, reinject, Taken(errs))
        && (forall i :: 0 <= i < |reinject| && errs[i].None? && !SlotTaken(old(all), reinject[i].sender, reinject[i].nonce) ==>
             reinject[i].sender in dirty)
        && PromotedAll(staged, added, chain, maxGas, locals, config.accountQueue, dirty)
        && DemotedAll(added, aligned, chain, maxGas)
        && PromotedAll(aligned, Snap(), chain, maxGas, locals, config.accountQueue, aligned.queue.Keys)
      ensures Small(|old(all)|) && reinject == [] ==>
        forall tx :: tx in old(all) && tx !in all ==> LostFor(Snap(), chain, maxGas, locals, config.accountQueue, tx)
      ensures AllDrained(Snap(), chain)
    {
      hide Listed, Sound, AllGapless, AllRan, Staged, PromotedAll, DemotedAll, SlotTaken, Sourced, Answer, NonePending, Justified, LostFor, AllDrained;
      if AllGapless() { GaplessHasRun(); }
      Adopt(chain, maxGas);
      errs, dirty, staged := AddTxs(reinject, false);
      added := Snap();
      ValidSnap();
      ghost var mid := all;
      aligned := Realign();
      SourcedPart(old(all), mid, all, reinject, errs);
    }

    lemma ValidSnap()
      requires Valid()
      ensures SnapOk(Snap())
    {}

    /** Points the pool at another chain state and forgets the tracked nonces. */
    method Adopt(chain: ChainState, maxGas: nat)
      requires Valid()
      modifies this`state, this`maxGas, this`managed
      ensures Valid() && state == chain && this.maxGas == maxGas && managed == map[]
    {
      state, this.maxGas, managed := chain, maxGas, map[];
    }

    /** The second half of reset: demote against the new state, track, promote everything. */
    method Realign() returns (ghost aligned: Snapshot)
      requires Valid()
      modifies this`managed, this`pending, this`queue, this`all, priced
      ensures Valid() && all <= old(all)
      ensures WithinLimits()
      ensures DemotedAll(old(Snap()), aligned, state, maxGas) && SnapOk(aligned)
      ensures Small(|old(all)|) ==> PromotedAll(aligned, Snap(), state, maxGas, locals, config.accountQueue, aligned.queue.Keys)
      ensures Small(|old(all)|) ==>
        forall tx :: tx in old(all) && tx !in all ==> LostFor(Snap(), state, maxGas, locals, config.accountQueue, tx)
      ensures AllDrained(Snap(), state)
      ensures old(AllRan()) && old(managed) == map[] ==> AllGapless()
    {
      hide ListsOk, Exact, Sound, AllGapless, GaplessBut, AllRan, SettledBut, HighestPlusOne;
      hide PlanDemoted, PromotedAll, DemotedFor, Losses, LostFor, DrainedAll, AllDrained, QueuesPart;
      DemoteUnexecutables();
      ghost var kept := all;
      ghost var settled := SettledBut({}) && managed == map[];
      TrackPending();
      var accounts := Enumerate(queue.Keys);
      if settled { TrackedIsGaplessBut(accounts); }
      aligned := Snap();
      NoRepeats(accounts, queue.Keys);
      assert Elements(accounts) == queue.Keys;
      SubsetSize(all, old(all));
      PromoteExecutables(accounts);
      DrainedEverywhere(aligned.queue, Snap(), state);
      if Small(|old(all)|) {
        LostInReset(old(pending), aligned, Snap(), old(all), kept, all, state, maxGas, locals, config.accountQueue, aligned.queue.Keys);
      }
    }

    lemma GaplessHasRun()
      requires AllGapless()
      ensures AllRan()
    {}

    lemma TrackedIsGaplessBut(accounts: seq<Address>)
      requires SettledBut({}) && ListsOk(pending, true) && managed.Keys == pending.Keys && multiset(accounts) == multiset(queue.Keys)
      requires forall a :: a in pending ==> HighestPlusOne(ItemsOf(pending, a), managed[a])
      ensures GaplessBut(Elements(accounts))
    {
      NoRepeats(accounts, queue.Keys);
      forall a | At(a)
        ensures NearlyGaplessAt(a) && (a !in accounts ==> GaplessAt(a))
      {
        SettledIsNearlyGapless(ItemsOf(pending, a), ItemsOf(queue, a), state.nonce(a), NextNonce(a));
      }
    }
  }

  /** One above the nonce of the transaction before position i. */
  function Bound(s: seq<Tx>, i: nat): nat
    requires i <= |s|
  {
    if i == 0 then 0 else s[i - 1].nonce + 1
  }

  /** Adding a sorted list's next transaction to what its predecessors were added to. */
  lemma FlatStep(p: Items, s: seq<Tx>, m: Items, i: nat)
    requires IsFlat(s, m) && Keyed(m) && i <= |s|
    ensures i < |s| ==> s[i].nonce !in Retired(m, Bound(s, i)) && Has(m, s[i])
    ensures i < |s| ==> (p + Retired(m, Bound(s, i)))[s[i].nonce := s[i]] == p + Retired(m, Bound(s, i + 1))
    ensures i == 0 ==> p + Retired(m, Bound(s, i)) == p
    ensures i == |s| ==> Retired(m, Bound(s, i)) == m && (s == [] <==> m == map[])
  {
    if i < |s| { assert s[i] in s; }
    if s != [] { assert s[0] in s; }
    forall n | n in m && Bound(s, i) <= n
      ensures i < |s| && s[i].nonce <= n
    {
      assert Has(m, m[n]);
      var k :| 0 <= k < |s| && s[k] == m[n];
      assert i <= k;
    }
  }

  /** Removing a sorted list's transactions front to back, or back to front. */
  lemma FlatShed(s: seq<Tx>, m: Items, i: nat)
    requires IsFlat(s, m) && Keyed(m) && i < |s|
    ensures Has(m, s[i])
    ensures Has(Forwarded(m, Bound(s, i)), s[i]) && Forwarded(m, Bound(s, i)) - {s[i].nonce} == Forwarded(m, Bound(s, i + 1))
    ensures Has(Capped(m, i + 1), s[i]) && Capped(m, i + 1) - {s[i].nonce} == Capped(m, i)
  {
    assert s[i] in s;
    FlatRank(s, m, i);
    forall n | n in m
      ensures Bound(s, i) <= n ==> s[i].nonce <= n
      ensures |Below(m.Keys, n)| == i ==> n == s[i].nonce
    {
      assert Has(m, m[n]);
      var k :| 0 <= k < |s| && s[k] == m[n];
      FlatRank(s, m, k);
    }
  }

  lemma LastOfInterval(s: seq<Tx>, m: Items, lo: nat, hi: nat)
    requires IsFlat(s, m) && Keyed(m) && Interval(m, lo, hi)
    ensures if lo < hi then s != [] && Bound(s, |s|) == hi else s == []
  {
    if s != [] { assert s[|s| - 1] in s; }
    if lo < hi {
      assert hi - 1 in m;
      assert Has(m, m[hi - 1]);
      var k :| 0 <= k < |s| && s[k] == m[hi - 1];
    }
  }

  lemma ForgetOne(all: set<Tx>, leaving: set<Tx>, tx: Tx)
    requires tx in all
    ensures (all - {tx}) + {tx} == all
    ensures tx in leaving ==> all - leaving == (all - {tx}) - (leaving - {tx})
  {}

  lemma UnionStep(q: Items, txs: Items, todo: set<nat>, n: nat)
    requires n in todo && n in txs
    ensures (q + (txs - todo))[n := txs[n]] == q + (txs - (todo - {n}))
  {}

  lemma AllForwarded(s: seq<Tx>, m: Items)
    requires IsFlat(s, m) && Keyed(m)
    ensures Forwarded(m, Bound(s, 0)) == m && Forwarded(m, Bound(s, |s|)) == map[]
  {
    forall n | n in m
      ensures n < Bound(s, |s|)
    {
      assert Has(m, m[n]);
      var k :| 0 <= k < |s| && s[k] == m[n];
    }
  }

  lemma CapToNothing(m: Items)
    ensures Capped(m, 0) == map[]
  {}

  lemma QueuedIsPooled(pending: Lists, queue: Lists, all: set<Tx>, tx: Tx)
    requires Exact(pending, queue, all) && Has(ItemsOf(queue, tx.sender), tx)
    ensures tx in all && tx.nonce !in ItemsOf(pending, tx.sender)
  {
    assert At(tx.sender);
  }

  lemma QueueKeyed(pending: Lists, queue: Lists, all: set<Tx>, a: Address)
    requires Exact(pending, queue, all)
    ensures Keyed(ItemsOf(queue, a)) && forall n :: n in ItemsOf(queue, a) ==> ItemsOf(queue, a)[n].sender == a
  {
    assert At(a);
  }

  lemma ElsewhereListed(m: Lists, m': Lists, a: Address)
    requires SameElsewhere(m, m', a)
    ensures forall b :: b != a ==> (b in m' <==> b in m) && ItemsOf(m', b) == ItemsOf(m, b)
  {
    forall b | b != a
      ensures (b in m' <==> b in m) && ItemsOf(m', b) == ItemsOf(m, b)
    {
      assert At(b);
    }
  }

  lemma EmptyGone(m: Lists, a: Address)
    requires ListsOk(m, false)
    ensures a in m ==> 0 < Len(m, a)
  {
    assert At(a);
  }

  lemma LostBySender(p: Lists, q: Lists, all: set<Tx>, p': Lists, q': Lists, all': set<Tx>, a: Address, tx: Tx)
    requires Exact(p, q, all) && Exact(p', q', all') && SameElsewhere(p, p', a) && SameElsewhere(q, q', a)
    requires tx in all && tx !in all'
    ensures tx.sender == a
  {
    assert At(tx.sender);
  }

  lemma ShedQueuesPart(q: Lists, q': Lists)
    requires ShedFrom(q, q')
    ensures QueuesPart(q, q')
  {}

  lemma QueuesPartTwice(q: Lists, q': Lists, q'': Lists)
    requires QueuesPart(q, q') && QueuesPart(q', q'')
    ensures QueuesPart(q, q'')
  {
    hide ItemsOf;
  }

  lemma NonePromoted(s: Snapshot, chain: ChainState, maxGas: nat, locals: set<Address>, accountQueue: nat)
    ensures PromotedAll(s, s, chain, maxGas, locals, accountQueue, {})
  {}

  /** The nonce tracked after a promotion is one past the run's highest. */
  lemma PlanEnd(list: ListView, chain: ChainState, a: Address, maxGas: nat, next: nat, limit: Option<nat>, end: nat)
    ensures var plan := Promote(list, chain, a, maxGas, next, limit);
      plan.run != map[] && (forall lo: nat, hi: nat :: Interval(plan.run, lo, hi) && lo < hi ==> end == hi) ==> HighestPlusOne(plan.run, end)
  {
    hide Filter;
    var f := Filter(list.(items := Forwarded(list.items, chain.nonce(a))), chain.balance(a), maxGas, chain.balance);
    var lo, hi := FirstRunEnds(f.list.items, next);
  }

  lemma NothingPending(q: Items, stateNonce: nat)
    ensures Settled(map[], q, stateNonce)
  {}

  function Highest(s: set<nat>): (hi: nat)
    requires s != {}
    ensures IsGreatest(hi, s)
  {
    GreatestExists(s);
    var hi :| hi in s && forall n :: n in s ==> n <= hi;
    hi
  }

  lemma GreatestExists(s: set<nat>)
    requires s != {}
    ensures exists hi :: hi in s && forall n :: n in s ==> n <= hi
  {
    var hi := HasGreatest(s);
  }

  lemma DropNext(drop: seq<Tx>, i: nat)
    requires i < |drop|
    ensures Elements(drop[i..]) == {drop[i]} + Elements(drop[i + 1..])
    ensures Elements(drop[..i + 1]) == Elements(drop[..i]) + {drop[i]}
  {}

  lemma SoundPut(items: seq<Tx>, stales: int, all: set<Tx>, items': seq<Tx>, tx: Tx)
    requires Sound(items, stales, all) && tx !in all && |items'| == |items| + 1 && forall t :: t in items' <==> t in items || t == tx
    ensures Sound(items', stales, all + {tx})
  {}

  /**
   What is left of a full pool after making room: local transactions stay, no dropped one is dearer than
   a remote one that stays, no more leave than must, and one leaves if there is a remote one. If one must
   leave, or no remote transaction has two heap entries, exactly as many leave as must or all remote ones.
   */
  ghost predicate MadeRoom(all: set<Tx>, room: set<Tx>, locals: set<Address>, items: seq<Tx>, cap: nat) {
    && room <= all && cap <= |room| + 1
    && (forall t :: t in all && t.sender in locals ==> t in room)
    && (forall d, t :: d in all && d !in room && t in room && t.sender !in locals ==>
         d.price <= t.price && (d.price == t.price ==> t.nonce <= d.nonce))
    && ((exists t :: t in all && t.sender !in locals) ==> room != all)
    && (|all| == cap || NoneRepeated(items, all, locals) ==> |room| + 1 == cap || forall t :: t in room ==> t.sender in locals)
  }

  /** Room is made for a remote transaction that a full pool does not turn away, and only then. */
  ghost predicate RoomAsNeeded(all: set<Tx>, room: set<Tx>, locals: set<Address>, items: seq<Tx>, cap: nat, local: bool, err: Option<Error>) {
    if !local && cap <= |all| && (err.None? || err == Some(ReplaceUnderpriced)) then MadeRoom(all, room, locals, items, cap)
    else room == all
  }

  /** One of the first i transactions is t, and it was accepted. */
  ghost predicate Accepted(txs: seq<Tx>, errs: seq<Option<Error>>, i: nat, t: Tx) {
    exists j :: 0 <= j < i <= |txs| && i <= |errs| && txs[j] == t && errs[j].None?
  }

  /** No slot was vacated, those of the accepted transactions are taken, and newly taken ones belong to listed accounts. */
  ghost predicate SlotsGrow(before: set<Tx>, after: set<Tx>, txs: seq<Tx>, errs: seq<Option<Error>>, dirty: set<Address>) {
    && (forall i :: 0 <= i < |errs| <= |txs| && errs[i].None? ==> SlotTaken(after, txs[i].sender, txs[i].nonce))
    && (forall a, n :: SlotTaken(before, a, n) ==> SlotTaken(after, a, n))
    && (forall a, n :: SlotTaken(after, a, n) && a !in dirty ==> SlotTaken(before, a, n))
  }

  lemma GrownListed(before: set<Tx>, after: set<Tx>, txs: seq<Tx>, errs: seq<Option<Error>>, dirty: set<Address>)
    requires |errs| == |txs|
    ensures SlotsGrow(before, after, txs, errs, dirty) ==>
      forall i :: 0 <= i < |txs| && errs[i].None? && !SlotTaken(before, txs[i].sender, txs[i].nonce) ==> txs[i].sender in dirty
  {
    hide SlotTaken;
  }

  lemma NothingGrown(all: set<Tx>, txs: seq<Tx>)
    ensures SlotsGrow(all, all, txs, [], {})
  {}

  lemma GrowOne(start: set<Tx>, before: set<Tx>, after: set<Tx>, txs: seq<Tx>, errs: seq<Option<Error>>, dirty: set<Address>,
                err: Option<Error>, replaced: bool)
    requires |errs| < |txs|
    ensures var tx := txs[|errs|];
      var dirty' := if err.None? && !replaced then dirty + {tx.sender} else dirty;
      && SlotsGrow(start, before, txs, errs, dirty)
      && after == (if err.Some? then before else (set t | t in before && !(t.sender == tx.sender && t.nonce == tx.nonce)) + {tx})
      && (replaced <==> err.None? && SlotTaken(before, tx.sender, tx.nonce))
      ==> SlotsGrow(start, after, txs, errs + [err], dirty')
  {
    hide SlotTaken;
    SlotsAfter(before, after, txs[|errs|]);
  }

  lemma AcceptOne(txs: seq<Tx>, errs: seq<Option<Error>>, i: nat, err: Option<Error>)
    requires i < |txs| && |errs| == i
    ensures forall j: nat, t :: j <= i && Accepted(txs, errs, j, t) ==> Accepted(txs, errs + [err], j, t)
    ensures forall t :: Accepted(txs, errs, i, t) ==> Accepted(txs, errs + [err], i + 1, t)
    ensures err.None? ==> Accepted(txs, errs + [err], i + 1, txs[i])
  {
    forall j: nat, t | j <= i && Accepted(txs, errs, j, t)
      ensures Accepted(txs, errs + [err], j, t) && Accepted(txs, errs + [err], i + 1, t)
    {
      var k :| 0 <= k < j && txs[k] == t && errs[k].None?;
      assert (errs + [err])[k] == errs[k];
    }
    if err.None? { assert (errs + [err])[i] == err; }
  }

  /** What is pooled was pooled before or accepted, and so was what is reported as known, by then. */
  ghost predicate Sourced(before: set<Tx>, after: set<Tx>, txs: seq<Tx>, errs: seq<Option<Error>>) {
    && (forall t :: t in after ==> t in before || Accepted(txs, errs, |errs|, t))
    && (forall i :: 0 <= i < |errs| <= |txs| && errs[i] == Some(Known) ==> txs[i] in before || Accepted(txs, errs, i, txs[i]))
  }

  /** The transaction's slot was taken before the batch, or by one of its first i transactions. */
  ghost predicate SlotSeen(all0: set<Tx>, txs: seq<Tx>, errs: seq<Option<Error>>, i: nat, tx: Tx) {
    || SlotTaken(all0, tx.sender, tx.nonce)
    || exists j :: 0 <= j < i <= |txs| && i <= |errs| && errs[j].None? && txs[j].sender == tx.sender && txs[j].nonce == tx.nonce
  }

  lemma SeenOn(all0: set<Tx>, txs: seq<Tx>, errs: seq<Option<Error>>, err: Option<Error>, i: nat)
    requires i <= |errs| < |txs|
    ensures SlotSeen(all0, txs, errs, i, txs[i]) ==> SlotSeen(all0, txs, errs + [err], i, txs[i])
    ensures SlotTaken(all0, txs[i].sender, txs[i].nonce) ==> SlotSeen(all0, txs, errs + [err], i, txs[i])
  {
    if j :| 0 <= j < i && errs[j].None? && txs[j].sender == txs[i].sender && txs[j].nonce == txs[i].nonce {
      assert (errs + [err])[j].None?;
    }
  }

  lemma SlotSource(all0: set<Tx>, all: set<Tx>, s: Snapshot, t: Snapshot, txs: seq<Tx>, errs: seq<Option<Error>>, dirty: set<Address>,
                   ample: bool, staging: bool, tx: Tx)
    requires Batch(all0, all, s, t, txs, errs, dirty, ample, staging)
    ensures SlotTaken(all, tx.sender, tx.nonce) ==> SlotSeen(all0, txs, errs, |errs|, tx)
  {
    if x :| x in all && x.sender == tx.sender && x.nonce == tx.nonce {
      if x !in all0 {
        assert Accepted(txs, errs, |errs|, x);
        var j :| 0 <= j < |errs| && txs[j] == x && errs[j].None?;
      }
    }
  }

  /** What a batch has done so far to the pool, its lists and its listed accounts. */
  ghost predicate Batch(all0: set<Tx>, all: set<Tx>, s: Snapshot, t: Snapshot, txs: seq<Tx>, errs: seq<Option<Error>>, dirty: set<Address>,
                        ample: bool, staging: bool)
  {
    && |errs| <= |txs| && |all| <= |all0| + |errs| && Sourced(all0, all, txs, errs)
    && (ample ==> SlotsGrow(all0, all, txs, errs, dirty))
    && (staging ==> Staged(s, t, txs, Taken(errs)) && t.pending == s.pending)
  }

  lemma NoBatch(all: set<Tx>, s: Snapshot, txs: seq<Tx>, ample: bool, staging: bool)
    ensures Batch(all, all, s, s, txs, [], {}, ample, staging)
  {
    NothingGrown(all, txs);
    NothingSourced(all, txs);
    NothingStaged(s, txs);
  }

  lemma BatchFacts(all0: set<Tx>, all: set<Tx>, s: Snapshot, t: Snapshot, txs: seq<Tx>, errs: seq<Option<Error>>, dirty: set<Address>,
                   ample: bool, staging: bool)
    requires Batch(all0, all, s, t, txs, errs, dirty, ample, staging)
    ensures |all| <= |all0| + |errs| && (staging ==> t.pending == s.pending)
  {}

  lemma BatchDone(all0: set<Tx>, all: set<Tx>, s: Snapshot, t: Snapshot, txs: seq<Tx>, errs: seq<Option<Error>>, dirty: set<Address>,
                  ample: bool, staging: bool)
    requires Batch(all0, all, s, t, txs, errs, dirty, ample, staging)
    ensures |errs| <= |txs| && |all| <= |all0| + |errs| && Sourced(all0, all, txs, errs)
    ensures (ample ==> SlotsGrow(all0, all, txs, errs, dirty)) && (staging ==> Staged(s, t, txs, Taken(errs)))
  {}

  lemma BatchOne(all0: set<Tx>, before: set<Tx>, after: set<Tx>, s: Snapshot, t: Snapshot, u: Snapshot,
                 txs: seq<Tx>, errs: seq<Option<Error>>, dirty: set<Address>, ample: bool, staging: bool, err: Option<Error>, replaced: bool)
    requires |errs| < |txs| && Batch(all0, before, s, t, txs, errs, dirty, ample, staging)
    requires forall x :: x in after ==> x in before || (x == txs[|errs|] && err.None?)
    requires err == Some(Known) ==> txs[|errs|] in before
    requires var tx := txs[|errs|];
      ample ==>
        && after == (if err.Some? then before else (set x | x in before && !(x.sender == tx.sender && x.nonce == tx.nonce)) + {tx})
        && (replaced <==> err.None? && SlotTaken(before, tx.sender, tx.nonce))
    requires var tx := txs[|errs|];
      staging ==>
        && u.pending == t.pending && u.managed == t.managed
        && (if err.None? then SameElsewhere(t.queue, u.queue, tx.sender) && ItemsOf(u.queue, tx.sender) == ItemsOf(t.queue, tx.sender)[tx.nonce := tx]
            else u.queue == t.queue)
    ensures Batch(all0, after, s, u, txs, errs + [err], if err.None? && !replaced then dirty + {txs[|errs|].sender} else dirty, ample, staging)
  {
    hide SlotTaken, SlotsGrow, Sourced, Staged, SameElsewhere, ItemsOf;
    SubsetSize(after, before + {txs[|errs|]});
    SourcedOne(all0, before, after, txs, errs, err);
    GrowOne(all0, before, after, txs, errs, dirty, err, replaced);
    if staging {
      StagedOne(s, t, u, txs, Taken(errs), err.None?);
      assert Taken(errs + [err]) == Taken(errs) + [err.None?];
    }
  }

  /** Which of the transactions were accepted. */
  function Taken(errs: seq<Option<Error>>): seq<bool> {
    seq(|errs|, i requires 0 <= i < |errs| => errs[i].None?)
  }

  lemma NotPending(pending: Lists, txs: seq<Tx>, i: nat)
    requires i < |txs|
    ensures NonePending(pending, txs) ==> txs[i].nonce !in ItemsOf(pending, txs[i].sender)
  {}

  lemma NothingStaged(s: Snapshot, txs: seq<Tx>)
    ensures Staged(s, s, txs, Taken([]))
  {}

  lemma SourcedPart(before: set<Tx>, after: set<Tx>, part: set<Tx>, txs: seq<Tx>, errs: seq<Option<Error>>)
    requires Sourced(before, after, txs, errs) && part <= after
    ensures Sourced(before, part, txs, errs)
  {
    hide Accepted;
  }

  lemma NothingSourced(all: set<Tx>, txs: seq<Tx>)
    ensures Sourced(all, all, txs, [])
  {}

  lemma SourcedOne(start: set<Tx>, before: set<Tx>, after: set<Tx>, txs: seq<Tx>, errs: seq<Option<Error>>, err: Option<Error>)
    requires |errs| < |txs| && Sourced(start, before, txs, errs)
    requires forall t :: t in after ==> t in before || (t == txs[|errs|] && err.None?)
    requires err == Some(Known) ==> txs[|errs|] in before
    ensures Sourced(start, after, txs, errs + [err])
  {
    hide Accepted;
    AcceptOne(txs, errs, |errs|, err);
  }

  lemma DropMakesRoom(all: set<Tx>, drop: seq<Tx>, locals: set<Address>, items: seq<Tx>, cap: nat)
    requires cap <= |all| && Elements(drop) <= all && |drop| <= |all| + 1 - cap
    requires forall t :: t in drop ==> t.sender !in locals
    requires forall d, t :: d in drop && t in all && t !in drop && t.sender !in locals ==> PriceLe(d, t)
    requires |drop| < |all| + 1 - cap ==> forall t :: t in all && t.sender !in locals ==> t in drop
    requires (exists t :: t in all && t.sender !in locals) ==> drop != []
    requires |all| == cap || NoneRepeated(items, all, locals) ==> |drop| == |Elements(drop)|
    ensures MadeRoom(all, all - Elements(drop), locals, items, cap)
  {
    hide NoneRepeated;
    ElementsSize(drop);
    var room := all - Elements(drop);
    assert |room| == |all| - |Elements(drop)|;
    if drop != [] { assert drop[0] in Elements(drop) && drop[0] !in room; }
  }

  lemma RoomIsPart(all: set<Tx>, room: set<Tx>, locals: set<Address>, items: seq<Tx>, cap: nat)
    requires MadeRoom(all, room, locals, items, cap)
    ensures room <= all
  {}

  lemma SameRepeats(items0: seq<Tx>, items: seq<Tx>, all: set<Tx>, locals: set<Address>)
    requires Kept(items0, items, [], [], all)
    ensures NoneRepeated(items0, all, locals) <==> NoneRepeated(items, all, locals)
  {}

  /** Some pooled transaction has this sender and nonce. */
  ghost predicate SlotTaken(all: set<Tx>, a: Address, n: nat) {
    exists t :: t in all && t.sender == a && t.nonce == n
  }

  lemma PooledIsTaken(all: set<Tx>, tx: Tx)
    requires tx in all
    ensures SlotTaken(all, tx.sender, tx.nonce)
  {}

  lemma SlotsAfter(before: set<Tx>, after: set<Tx>, tx: Tx)
    ensures after == before ==> forall a, n :: SlotTaken(after, a, n) <==> SlotTaken(before, a, n)
    ensures after == (set t | t in before && !(t.sender == tx.sender && t.nonce == tx.nonce)) + {tx} ==>
      forall a, n :: SlotTaken(after, a, n) <==> SlotTaken(before, a, n) || (a == tx.sender && n == tx.nonce)
  {}

  /** Whatever occupies a transaction's slot, in either list, is pooled and is not that (new) transaction. */
  lemma SlotPooled(pending: Lists, queue: Lists, all: set<Tx>, tx: Tx)
    requires Exact(pending, queue, all) && tx !in all
    ensures var p, q := ItemsOf(pending, tx.sender), ItemsOf(queue, tx.sender);
      && (tx.nonce in p ==> p[tx.nonce] in all && p[tx.nonce] != tx)
      && (tx.nonce in q ==> q[tx.nonce] in all && q[tx.nonce] != tx)
  {
    assert At(tx.sender);
    var p, q := ItemsOf(pending, tx.sender), ItemsOf(queue, tx.sender);
    assert tx.nonce in p ==> Has(p, p[tx.nonce]);
    assert tx.nonce in q ==> Has(q, q[tx.nonce]);
  }

  /** The lookup holds at most one transaction per sender and nonce: the one in the slot. */
  lemma SlotUnique(pending: Lists, queue: Lists, all: set<Tx>, tx: Tx)
    requires Exact(pending, queue, all)
    ensures var p, q := ItemsOf(pending, tx.sender), ItemsOf(queue, tx.sender);
      (set t | t in all && !(t.sender == tx.sender && t.nonce == tx.nonce)) ==
        if tx.nonce in p then all - {p[tx.nonce]} else if tx.nonce in q then all - {q[tx.nonce]} else all
    ensures SlotTaken(all, tx.sender, tx.nonce)
      <==> tx.nonce in ItemsOf(pending, tx.sender) || tx.nonce in ItemsOf(queue, tx.sender)
  {
    assert At(tx.sender);
    var p, q := ItemsOf(pending, tx.sender), ItemsOf(queue, tx.sender);
    if tx.nonce in p { assert Has(p, p[tx.nonce]); }
    if tx.nonce in q { assert Has(q, q[tx.nonce]); }
  }

  lemma ExactAfterReplace(pending: Lists, queue: Lists, all: set<Tx>, pending': Lists, queue': Lists, all': set<Tx>, tx: Tx)
    requires Exact(pending, queue, all) && tx !in all
    requires SameElsewhere(pending, pending', tx.sender) && SameElsewhere(queue, queue', tx.sender)
    requires var p, q, p', q' := ItemsOf(pending, tx.sender), ItemsOf(queue, tx.sender), ItemsOf(pending', tx.sender), ItemsOf(queue', tx.sender);
      || (tx.nonce in p && p' == p[tx.nonce := tx] && q' == q && all' == all - {p[tx.nonce]} + {tx})
      || (tx.nonce !in p && p' == p && q' == q[tx.nonce := tx] && all' == (if tx.nonce in q then all - {q[tx.nonce]} else all) + {tx})
    ensures Exact(pending', queue', all')
  {
    assert At(tx.sender);
    ExactAfterPut(pending, queue, all, pending', queue', all', tx);
  }

  lemma SameRun(p: Items, p': Items, q: Items, stateNonce: nat, next: nat)
    requires Gapless(p, q, stateNonce, next) && p.Keys == p'.Keys
    ensures Gapless(p', q, stateNonce, next)
  {}
}
