/** What the pool's checks are worth when a block is built or executed. */
module Admissions {
  import opened Transactions
  import opened IntrinsicCosts
  import opened WorldStates
  import opened StateTransitions
  import PoolStates
  import TxLists
  import TxPools

  /**
   The pool looks at the state the transaction is executed in: its nonces, and the balances less what is
   locked. Locks are part of the staking records, which buying gas does not touch.
   */
  ghost predicate Sees(chain: PoolStates.ChainState, evm: Evm, s: State) {
    && (forall a :: chain.nonce(a) == s.Nonce(a) && chain.balance(a) == s.Balance(a) - evm.locked(s, a))
    && (forall a :: 0 <= evm.locked(s, a))
    && (forall t: State, a :: t.world == s.world ==> evm.locked(t, a) == evm.locked(s, a))
  }

  /**
   A transaction that a filter leaves and whose gas covers the intrinsic cost is refused only because its
   turn has not come or has passed, or because the block is too full; and the sender can pay value and fee.
   */
  lemma PayableExecutes(chain: PoolStates.ChainState, maxGas: nat, evm: Evm, s: State, tx: Tx, left: nat)
    requires Sees(chain, evm, s) && !TxLists.Unpayable(tx, chain.balance(tx.sender), maxGas, chain.balance)
    requires 0 <= tx.amount && 0 <= tx.fee && IntrinsicCost(tx.data, tx.Creation()) <= tx.gas <= MAX_UINT64
    ensures Refusal(s, tx, left) ==
      if s.Nonce(tx.sender) < tx.nonce then Some(NonceTooHigh)
      else if tx.nonce < s.Nonce(tx.sender) then Some(NonceTooLow)
      else if left < tx.gas then Some(GasLimitReached)
      else None
    ensures tx.amount + tx.fee <= Prepared(s, tx).Balance(tx.sender) - evm.locked(Prepared(s, tx), tx.sender)
    ensures Affordable(evm, Prepared(s, tx), tx)
  {
    hide IntrinsicCost;
    PreparedBalance(s, tx, tx.sender);
    assert Prepared(s, tx).world == s.world;
  }

  /** The same of a transaction the pool has just found valid; its turn cannot have passed. */
  lemma AdmittedExecutes(pool: TxPools.TxPool, evm: Evm, s: State, tx: Tx, left: nat)
    requires Sees(pool.state, evm, s) && tx.gas <= MAX_UINT64 && forall e :: !pool.Faulty(tx, e)
    ensures Refusal(s, tx, left) ==
      if s.Nonce(tx.sender) < tx.nonce then Some(NonceTooHigh) else if left < tx.gas then Some(GasLimitReached) else None
    ensures Affordable(evm, Prepared(s, tx), tx)
  {
    hide IntrinsicCost, Refusal, Affordable, Prepared, Sees;
    assert !pool.Faulty(tx, TxPools.Error.NegativeValue) && !pool.Faulty(tx, TxPools.Error.NegativeFee);
    assert !pool.Faulty(tx, TxPools.Error.GasLimit) && !pool.Faulty(tx, TxPools.Error.IntrinsicGasTooLow);
    assert !pool.Faulty(tx, TxPools.Error.PayerFunds) && !pool.Faulty(tx, TxPools.Error.SenderFunds) && !pool.Faulty(tx, TxPools.Error.Funds);
    assert !pool.Faulty(tx, TxPools.Error.NonceTooLow);
    PayableExecutes(pool.state, pool.maxGas, evm, s, tx, left);
    assert pool.state.nonce(tx.sender) == s.Nonce(tx.sender) by { SeenNonce(pool.state, evm, s, tx.sender); }
  }

  lemma SeenNonce(chain: PoolStates.ChainState, evm: Evm, s: State, a: Address)
    requires Sees(chain, evm, s)
    ensures chain.nonce(a) == s.Nonce(a)
  {}
}
