/** A block's transactions one after the other (core/state_processor.go), and what is conserved over all of them. */
module StateProcessors {
  import opened Transactions
  import opened IntrinsicCosts
  import opened WorldStates
  import opened StateTransitions

  datatype Receipt = Receipt(tx: Tx, failed: bool, cumulativeGasUsed: nat, gasUsed: nat, logs: seq<Log>,
                             index: nat, contract: Option<Address>)

  // The state after some transactions, and what they used, collected and reported.
  datatype Progress = Progress(state: State, used: nat, fees: int, receipts: seq<Receipt>)

  function Start(s: State): Progress { Progress(s, 0, 0, []) }

  function ReceiptFor(evm: Evm, tx: Tx, used: nat, failed: bool, logs: seq<Log>, cumulative: nat, index: nat): Receipt {
    Receipt(tx, failed, cumulative, used, logs, index,
            if tx.Creation() then Some(evm.newAddress(tx.sender, tx.nonce)) else None)
  }

  ghost function After(evm: Evm, p: Progress, tx: Tx): Progress
    requires Executable(evm, tx)
  {
    var o := Executed(evm, p.state, tx);
    Progress(o.state, p.used + o.used, p.fees + o.used * tx.price + tx.fee,
             p.receipts + [ReceiptFor(evm, tx, o.used, o.failed, o.logs, p.used + o.used, |p.receipts|)])
  }

  /**
   The meaning of a block: its transactions in order on a pool that holds the block's limit less
   what was used so far, or nothing if one of them is refused.
   */
  ghost function Replay(evm: Evm, s: State, txs: seq<Tx>, limit: nat): (r: Option<Progress>)
    requires evm.Bounded()
    ensures r.Some? ==> r.value.used <= limit && |r.value.receipts| == |txs|
  {
    if txs == [] then Some(Start(s))
    else
      var before := Replay(evm, s, txs[..|txs| - 1], limit);
      var tx := txs[|txs| - 1];
      if before.None? || Refusal(before.value.state, tx, limit - before.value.used).Some? then None
      else
        UsedBounds(evm, before.value.state, tx);
        Some(After(evm, before.value, tx))
  }

  lemma ReplayOne(evm: Evm, s: State, txs: seq<Tx>, tx: Tx, limit: nat)
    requires evm.Bounded() && Replay(evm, s, txs, limit).Some?
    ensures var p := Replay(evm, s, txs, limit).value;
      Replay(evm, s, txs + [tx], limit)
        == if Refusal(p.state, tx, limit - p.used).Some? then None else Some(After(evm, p, tx))
  {
    hide Executed, IntrinsicCost, Refusal, After;
    assert (txs + [tx])[..|txs + [tx]| - 1] == txs;
  }

  // A block that fails at some transaction fails.
  lemma {:induction false} ReplayPrefix(evm: Evm, s: State, txs: seq<Tx>, n: nat, limit: nat)
    requires evm.Bounded() && n <= |txs| && Replay(evm, s, txs[..n], limit).None?
    ensures Replay(evm, s, txs, limit).None?
    decreases |txs|
  {
    if n < |txs| {
      assert txs[..|txs| - 1][..n] == txs[..n];
      ReplayPrefix(evm, s, txs[..|txs| - 1], n, limit);
    } else {
      assert txs[..n] == txs;
    }
  }

  // More gas in the pool never turns an acceptable transaction into a refused one.
  lemma MorePool(s: State, tx: Tx, pool: nat, more: nat)
    requires pool <= more && Refusal(s, tx, pool).None?
    ensures Refusal(s, tx, more).None?
  {}

  // Fees that were counted as collected although no balance paid them.
  ghost function Uncollected(evm: Evm, s: State, txs: seq<Tx>, limit: nat): int
    requires evm.Bounded() && Replay(evm, s, txs, limit).Some?
  {
    if txs == [] then 0
    else
      var init, tx := txs[..|txs| - 1], txs[|txs| - 1];
      Uncollected(evm, s, init, limit)
      + (if FeeCharged(evm, Replay(evm, s, init, limit).value.state, tx) then 0 else tx.fee)
  }

  /**
   Over a whole block, balances and collected fees together grow by exactly the fees that were
   counted without being charged, and by nothing else.
   */
  lemma {:induction false} BlockConserves(evm: Evm, s: State, txs: seq<Tx>, limit: nat)
    requires evm.Bounded() && evm.Conserving() && Replay(evm, s, txs, limit).Some?
    ensures var p := Replay(evm, s, txs, limit).value;
      p.state.Supply() + p.fees == s.Supply() + Uncollected(evm, s, txs, limit)
  {
    hide State.Supply, FeeCharged, IntrinsicCost, Executed;
    if txs != [] {
      var init, tx := txs[..|txs| - 1], txs[|txs| - 1];
      BlockConserves(evm, s, init, limit);
      ExecutedSupply(evm, Replay(evm, s, init, limit).value.state, tx);
    }
  }

  // Every fee in the block was charged, or was zero.
  ghost predicate FeesCharged(evm: Evm, s: State, txs: seq<Tx>, limit: nat)
    requires evm.Bounded() && Replay(evm, s, txs, limit).Some?
  {
    txs != [] ==>
      var init, tx := txs[..|txs| - 1], txs[|txs| - 1];
      && FeesCharged(evm, s, init, limit)
      && (tx.fee == 0 || FeeCharged(evm, Replay(evm, s, init, limit).value.state, tx))
  }

  /** With fees that are not negative, value is conserved exactly when every fee was charged. */
  lemma ConservedIffCharged(evm: Evm, s: State, txs: seq<Tx>, limit: nat)
    requires evm.Bounded() && evm.Conserving() && Replay(evm, s, txs, limit).Some?
    requires forall tx :: tx in txs ==> 0 <= tx.fee
    ensures var p := Replay(evm, s, txs, limit).value;
      p.state.Supply() + p.fees == s.Supply() <==> FeesCharged(evm, s, txs, limit)
  {
    BlockConserves(evm, s, txs, limit);
    UncollectedSign(evm, s, txs, limit);
  }

  lemma {:induction false} UncollectedSign(evm: Evm, s: State, txs: seq<Tx>, limit: nat)
    requires evm.Bounded() && Replay(evm, s, txs, limit).Some?
    requires forall tx :: tx in txs ==> 0 <= tx.fee
    ensures 0 <= Uncollected(evm, s, txs, limit)
    ensures Uncollected(evm, s, txs, limit) == 0 <==> FeesCharged(evm, s, txs, limit)
  {
    hide FeeCharged, IntrinsicCost, Executed;
    if txs != [] {
      UncollectedSign(evm, s, txs[..|txs| - 1], limit);
    }
  }

  predicate RunningAt(receipts: seq<Receipt>, j: nat)
    requires j < |receipts|
  {
    receipts[j].cumulativeGasUsed == receipts[j].gasUsed + (if j == 0 then 0 else receipts[j - 1].cumulativeGasUsed)
  }

  // Every receipt's running total is the one before it plus its own gas.
  ghost predicate Running(receipts: seq<Receipt>) {
    forall j :: 0 <= j < |receipts| ==> RunningAt(receipts, j)
  }

  function Total(receipts: seq<Receipt>): nat {
    if receipts == [] then 0 else receipts[|receipts| - 1].cumulativeGasUsed
  }

  lemma RunningAppend(receipts: seq<Receipt>, r: Receipt)
    requires Running(receipts) && r.cumulativeGasUsed == r.gasUsed + Total(receipts)
    ensures Running(receipts + [r]) && Total(receipts + [r]) == r.cumulativeGasUsed
  {
    var all := receipts + [r];
    forall j | 0 <= j < |all| ensures RunningAt(all, j) {
      if j < |receipts| { assert RunningAt(receipts, j); }
    }
  }

  lemma {:induction false} ReplayReceipts(evm: Evm, s: State, txs: seq<Tx>, limit: nat)
    requires evm.Bounded() && Replay(evm, s, txs, limit).Some?
    ensures var p := Replay(evm, s, txs, limit).value;
      && Running(p.receipts) && Total(p.receipts) == p.used
      && (forall j :: 0 <= j < |txs| ==> p.receipts[j].tx == txs[j] && p.receipts[j].index == j)
      && (forall j :: 0 <= j < |txs| ==> p.receipts[j].cumulativeGasUsed <= limit)
  {
    hide IntrinsicCost, Executed;
    if txs != [] {
      var init, tx := txs[..|txs| - 1], txs[|txs| - 1];
      ReplayReceipts(evm, s, init, limit);
      var p, q := Replay(evm, s, init, limit).value, Replay(evm, s, txs, limit).value;
      assert q.receipts == p.receipts + [q.receipts[|init|]];
      RunningAppend(p.receipts, q.receipts[|init|]);
    }
  }

  /**
   Each receipt reports the execution of its own transaction in the state its predecessors left: gas, status
   and logs, and for a creation the very address the code was run at.
   */
  lemma {:induction false} ReplayReceiptAt(evm: Evm, s: State, txs: seq<Tx>, limit: nat, j: nat)
    requires evm.Bounded() && Replay(evm, s, txs, limit).Some? && j < |txs|
    ensures Replay(evm, s, txs[..j], limit).Some? && Executable(evm, txs[j])
    ensures var tx, before, r := txs[j], Replay(evm, s, txs[..j], limit).value, Replay(evm, s, txs, limit).value.receipts[j];
      var o := Executed(evm, before.state, tx);
      && r.gasUsed == o.used && r.failed == o.failed && r.logs == o.logs && r.cumulativeGasUsed == before.used + o.used
      && r.contract == (if tx.Creation() then Some(Recipient(evm, Prepared(before.state, tx), tx)) else None)
      && r.contract == (if tx.Creation() then Some(evm.newAddress(tx.sender, tx.nonce)) else None)
    decreases |txs|
  {
    hide Executed, IntrinsicCost;
    var init := txs[..|txs| - 1];
    if j < |init| {
      assert init[..j] == txs[..j] && init[j] == txs[j];
      ReplayReceiptAt(evm, s, init, limit, j);
      hide Refusal, Recipient, Prepared;
    } else {
      assert txs[..j] == init;
    }
  }

  // The two running totals every transaction of a block adds to.
  class Totals {
    var usedGas: nat
    var fees: int

    constructor ()
      ensures usedGas == 0 && fees == 0
    {
      usedGas, fees := 0, 0;
    }
  }

  datatype Applied = Failed(error: Error) | Succeeded(receipt: Receipt)

  method ApplyTransaction(evm: Evm, tx: Tx, gp: GasPool, db: StateDB, totals: Totals, index: nat) returns (r: Applied)
    requires gp.Valid() && evm.Bounded()
    modifies gp, db, totals
    ensures gp.Valid()
    ensures r.Failed? ==>
      && Refusal(old(db.state), tx, old(gp.gas)) == Some(r.error)
      && gp.gas <= old(gp.gas) && totals.usedGas == old(totals.usedGas) && totals.fees == old(totals.fees)
    ensures r.Succeeded? ==>
      && Refusal(old(db.state), tx, old(gp.gas)) == None && Executable(evm, tx)
      && var o := Executed(evm, old(db.state), tx);
      && db.state == o.state && old(gp.gas) == gp.gas + o.used
      && totals.usedGas == old(totals.usedGas) + o.used && totals.fees == old(totals.fees) + o.used * tx.price + tx.fee
      && r.receipt == ReceiptFor(evm, tx, o.used, o.failed, o.logs, totals.usedGas, index)
  {
    var transition := new StateTransition(gp, db, evm, tx);
    var result := transition.TransitionDb();
    if result.Refused? { return Failed(result.error); }
    db.state := evm.finalise(db.state, tx);
    totals.usedGas := totals.usedGas + result.used;
    totals.fees := totals.fees + result.used * tx.price;
    totals.fees := totals.fees + tx.fee;
    r := Succeeded(ReceiptFor(evm, tx, result.used, result.failed, result.logs, totals.usedGas, index));
  }

  /** The committee's view: a fresh pool of the block's limit; it fails exactly when the block has no meaning. */
  method Process(evm: Evm, txs: seq<Tx>, limit: nat, db: StateDB) returns (r: Option<Progress>)
    requires evm.Bounded() && limit <= MAX_UINT64
    modifies db
    ensures r == Replay(evm, old(db.state), txs, limit)
    ensures r.Some? ==> db.state == r.value.state
  {
    hide Executed, IntrinsicCost, After;
    var gp := new GasPool();
    gp.AddGas(limit);
    var totals := new Totals();
    var receipts := [];
    for i := 0 to |txs|
      invariant gp.Valid() && fresh(gp) && fresh(totals)
      invariant Replay(evm, old(db.state), txs[..i], limit) == Some(Progress(db.state, totals.usedGas, totals.fees, receipts))
      invariant gp.gas == limit - totals.usedGas
    {
      ghost var p := Progress(db.state, totals.usedGas, totals.fees, receipts);
      var applied := ApplyTransaction(evm, txs[i], gp, db, totals, i);
      ReplayOne(evm, old(db.state), txs[..i], txs[i], limit);
      assert txs[..i] + [txs[i]] == txs[..i + 1];
      if applied.Failed? {
        ReplayPrefix(evm, old(db.state), txs, i + 1, limit);
        return None;
      }
      receipts := receipts + [applied.receipt];
      AfterApplied(evm, p, txs[i], Progress(db.state, totals.usedGas, totals.fees, receipts));
    }
    assert txs[..|txs|] == txs;
    r := Some(Progress(db.state, totals.usedGas, totals.fees, receipts));
  }

  lemma AfterApplied(evm: Evm, p: Progress, tx: Tx, q: Progress)
    requires Executable(evm, tx)
    requires var o := Executed(evm, p.state, tx);
      && q.state == o.state && q.used == p.used + o.used && q.fees == p.fees + o.used * tx.price + tx.fee
      && q.receipts == p.receipts + [ReceiptFor(evm, tx, o.used, o.failed, o.logs, p.used + o.used, |p.receipts|)]
    ensures q == After(evm, p, tx)
  {}
}
