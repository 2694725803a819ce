/**
 What one transaction does to the state (core/state_transition.go and the entry points of
 core/vm/evm.go), for an arbitrary deterministic interpreter.
 */
module StateTransitions {
  import opened Transactions
  import opened IntrinsicCosts
  import opened WorldStates

  type Log = nat

  datatype VmError = ShortOfBalance | AddressCollision | ExecutionReverted | CodeStoreOutOfGas | OtherVmError

  // What a run of code leaves: a state, unspent gas, the refund counter, its logs, and perhaps an error.
  datatype Run = Run(state: State, gas: nat, refund: nat, logs: seq<Log>, error: Option<VmError>)

  /**
   The interpreter and its block context. `run` starts after value and fee have moved; it covers
   the account's creation, precompiled contracts, byte code, and for a creation the storing of the code.
   `finalise` is what the state database does at the end of a transaction.
   */
  datatype Evm = Evm(run: (State, Tx, nat) -> Run,
                     finalise: (State, Tx) -> State,
                     present: (State, Address) -> bool,
                     precompiled: Address -> bool,
                     locked: (State, Address) -> int,
                     newAddress: (Address, nat) -> Address,
                     occupied: (State, Address) -> bool,
                     tip3: bool)
  {
    // Code never ends with more gas than it was given.
    ghost predicate Bounded() { forall s, tx, gas :: run(s, tx, gas).gas <= gas }

    // Code and finalisation neither create nor destroy value.
    ghost predicate Conserving() {
      && (forall s, tx, gas :: run(s, tx, gas).state.Supply() == s.Supply())
      && (forall s, tx :: finalise(s, tx).Supply() == s.Supply())
    }

    // Neither code nor finalisation touches the nonce of the transaction's sender.
    ghost predicate KeepsNonces() {
      && (forall s, tx: Tx, gas :: run(s, tx, gas).state.Nonce(tx.sender) == s.Nonce(tx.sender))
      && (forall s, tx: Tx :: finalise(s, tx).Nonce(tx.sender) == s.Nonce(tx.sender))
    }

    predicate CanTransfer(s: State, a: Address, amount: int) { amount <= s.Balance(a) - locked(s, a) }
  }

  // Gas left after an error: only a deliberate revert gives any back.
  function GasAfter(r: Run): nat {
    if r.error == Some(ExecutionReverted) then r.gas else 0
  }

  // The sender can pay value and fee; a call that moves no value does not ask.
  predicate Affordable(evm: Evm, s: State, tx: Tx) {
    (tx.to.Some? && tx.amount == 0) || evm.CanTransfer(s, tx.sender, tx.amount + tx.fee)
  }

  // A call of a missing account without value is over before anything moves.
  predicate Idle(evm: Evm, s: State, tx: Tx) {
    tx.to.Some? && tx.amount == 0 && !evm.present(s, tx.to.value) && !evm.precompiled(tx.to.value)
  }

  function Recipient(evm: Evm, s: State, tx: Tx): Address {
    if tx.to.Some? then tx.to.value else evm.newAddress(tx.sender, s.Nonce(tx.sender))
  }

  // A creation's sender has its nonce raised before the address is looked at.
  function Begun(s: State, tx: Tx): State {
    if tx.Creation() then s.SetNonce(tx.sender, s.Nonce(tx.sender) + 1) else s
  }

  // The state the code starts in: value moved, and for a call the fee taken. A creation takes no fee.
  function Entered(evm: Evm, s: State, tx: Tx): State {
    var to := Recipient(evm, s, tx);
    if tx.Creation() then Begun(s, tx).SetNonce(to, 1).Transfer(tx.sender, to, tx.amount)
    else s.Transfer(tx.sender, to, tx.amount).AddBalance(tx.sender, -tx.fee)
  }

  function Call(evm: Evm, s: State, tx: Tx, gas: nat): Run
    requires !tx.Creation()
  {
    if !Affordable(evm, s, tx) then Run(s, gas, 0, [], Some(ShortOfBalance))
    else if Idle(evm, s, tx) then Run(s, gas, 0, [], None)
    else
      var r := evm.run(Entered(evm, s, tx), tx, gas);
      if r.error.None? then r else Run(s, GasAfter(r), 0, [], r.error)
  }

  function Create(evm: Evm, s: State, tx: Tx, gas: nat): Run
    requires tx.Creation()
  {
    var at, begun := Recipient(evm, s, tx), Begun(s, tx);
    if !Affordable(evm, s, tx) then Run(s, gas, 0, [], Some(ShortOfBalance))
    else if evm.occupied(begun, at) || begun.Nonce(at) != 0 then Run(begun, 0, 0, [], Some(AddressCollision))
    else
      var r := evm.run(Entered(evm, s, tx), tx, gas);
      if r.error.None? || (r.error == Some(CodeStoreOutOfGas) && !evm.tip3) then r
      else Run(begun, GasAfter(r), 0, [], r.error)
  }

  datatype Error = NonceTooHigh | NonceTooLow | InsufficientBalanceForGas | InsufficientBalanceForPayerForGas
                 | GasLimitReached | GasUintOverflow | IntrinsicGasTooLow | ForbiddenAddress

  function Payer(tx: Tx): Address {
    if tx.payer != EMPTY_ADDRESS then tx.payer else tx.sender
  }

  // Why a transaction cannot be executed at all, given the gas left in the pool.
  function Refusal(s: State, tx: Tx, pool: nat): Option<Error> {
    if s.Nonce(tx.sender) < tx.nonce then Some(NonceTooHigh)
    else if s.Nonce(tx.sender) > tx.nonce then Some(NonceTooLow)
    else if s.Balance(Payer(tx)) < tx.GasCost() then
      Some(if tx.payer != EMPTY_ADDRESS then InsufficientBalanceForPayerForGas else InsufficientBalanceForGas)
    else if pool < tx.gas then Some(GasLimitReached)
    else if IntrinsicCost(tx.data, tx.Creation()) > MAX_UINT64 then Some(GasUintOverflow)
    else if tx.gas < IntrinsicCost(tx.data, tx.Creation()) then Some(IntrinsicGasTooLow)
    else None
  }

  // Refusals raised after the gas was taken from the pool; it is not given back.
  predicate TookGas(e: Error) { e.GasUintOverflow? || e.IntrinsicGasTooLow? }

  // The state in which the code starts: gas bought and, for a call, the nonce raised.
  function Prepared(s: State, tx: Tx): State {
    var bought := s.AddBalance(Payer(tx), 0 - tx.GasCost());
    if tx.Creation() then bought else bought.SetNonce(tx.sender, bought.Nonce(tx.sender) + 1)
  }

  function RunMessage(evm: Evm, s: State, tx: Tx): Run
    requires IntrinsicCost(tx.data, tx.Creation()) <= tx.gas
  {
    var gas := tx.gas - IntrinsicCost(tx.data, tx.Creation());
    if tx.Creation() then Create(evm, Prepared(s, tx), tx, gas) else Call(evm, Prepared(s, tx), tx, gas)
  }

  // The refund counter, capped to half of what was used (section 6.2 of the Ethereum Yellow Paper).
  function Refund(limit: nat, r: Run): nat
    requires r.gas <= limit
  {
    if (limit - r.gas) / 2 > r.refund then r.refund else (limit - r.gas) / 2
  }

  // What an executed transaction leaves behind.
  datatype Outcome = Outcome(state: State, used: nat, failed: bool, logs: seq<Log>)

  lemma RunBounded(evm: Evm, s: State, tx: Tx)
    requires evm.Bounded() && IntrinsicCost(tx.data, tx.Creation()) <= tx.gas
    ensures RunMessage(evm, s, tx).gas <= tx.gas - IntrinsicCost(tx.data, tx.Creation())
  {}

  ghost predicate Executable(evm: Evm, tx: Tx) {
    evm.Bounded() && IntrinsicCost(tx.data, tx.Creation()) <= tx.gas
  }

  // The gas handed back: what the code left and the refund.
  ghost function LeftOver(evm: Evm, s: State, tx: Tx): (left: nat)
    requires Executable(evm, tx)
    ensures left <= tx.gas
  {
    RunBounded(evm, s, tx);
    var r := RunMessage(evm, s, tx);
    r.gas + Refund(tx.gas, r)
  }

  // The state with the unused gas paid back, before finalisation.
  ghost function Settled(evm: Evm, s: State, tx: Tx): State
    requires Executable(evm, tx)
  {
    RunMessage(evm, s, tx).state.AddBalance(Payer(tx), LeftOver(evm, s, tx) * tx.price)
  }

  ghost function Executed(evm: Evm, s: State, tx: Tx): Outcome
    requires Executable(evm, tx)
  {
    var r := RunMessage(evm, s, tx);
    Outcome(evm.finalise(Settled(evm, s, tx), tx), tx.gas - LeftOver(evm, s, tx), r.error.Some?, r.logs)
  }

  /** A transaction uses at most its limit and at least half of its intrinsic gas. */
  lemma UsedBounds(evm: Evm, s: State, tx: Tx)
    requires Executable(evm, tx)
    ensures var used := Executed(evm, s, tx).used; used <= tx.gas && IntrinsicCost(tx.data, tx.Creation()) <= 2 * used
  {
    hide RunMessage, IntrinsicCost;
    RunBounded(evm, s, tx);
  }

  // The address a creation would use already holds code or has sent transactions.
  predicate Collides(evm: Evm, s: State, tx: Tx) {
    tx.Creation() && (evm.occupied(Begun(s, tx), Recipient(evm, s, tx)) || Begun(s, tx).Nonce(Recipient(evm, s, tx)) != 0)
  }

  /**
   What a transaction costs and whether it counts as failed, by what happens to it. Before any code runs:
   the intrinsic gas if the sender cannot pay or there is nothing to call, all gas on an address collision.
   Code that fails costs all gas, code that reverts what it used without a refund, and code whose effects
   are kept what it used less the refund, which is at most half of that.
   */
  lemma UsedExact(evm: Evm, s: State, tx: Tx)
    requires Executable(evm, tx)
    ensures var o, p, intrinsic := Executed(evm, s, tx), Prepared(s, tx), IntrinsicCost(tx.data, tx.Creation());
      var code := evm.run(Entered(evm, p, tx), tx, tx.gas - intrinsic);
      if (tx.Creation() || tx.amount != 0) && p.Balance(tx.sender) - evm.locked(p, tx.sender) < tx.amount + tx.fee then
        o.used == intrinsic && o.failed && o.logs == []
      else if !tx.Creation() && tx.amount == 0 && !evm.present(p, tx.to.value) && !evm.precompiled(tx.to.value) then
        o.used == intrinsic && !o.failed && o.logs == []
      else if Collides(evm, p, tx) then
        o.used == tx.gas && o.failed && o.logs == []
      else
        && (o.failed <==> code.error.Some?)
        && (if code.error == Some(ExecutionReverted) then o.used == tx.gas - code.gas && o.logs == []
            else if code.error.Some? && !(code.error == Some(CodeStoreOutOfGas) && tx.Creation() && !evm.tip3) then
              o.used == tx.gas && o.logs == []
            else
              var spent := tx.gas - code.gas;
              o.used == Max(spent - code.refund, spent - spent / 2) && o.logs == code.logs)
  {
    hide IntrinsicCost, Entered, Begun, Recipient, State.Balance, Settled;
  }

  /**
   Value and fee never take a sender below its locked balance before the code starts, with one exception:
   a call that moves no value is not asked for its fee, so the fee may.
   */
  lemma FeeOverdraft(evm: Evm, s: State, tx: Tx)
    requires 0 <= tx.amount && 0 <= tx.fee && Affordable(evm, s, tx)
    ensures evm.locked(s, tx.sender) <= Entered(evm, s, tx).Balance(tx.sender) <==>
      !tx.Creation() && tx.amount == 0 ==> tx.fee <= s.Balance(tx.sender) - evm.locked(s, tx.sender)
  {}

  // The fee leaves the sender's balance only in a call that runs and does not fail.
  predicate FeeCharged(evm: Evm, s: State, tx: Tx)
    requires IntrinsicCost(tx.data, tx.Creation()) <= tx.gas
  {
    !tx.Creation() && RunMessage(evm, s, tx).error.None? && !Idle(evm, Prepared(s, tx), tx)
  }

  lemma Distribute(price: int, a: int, b: int)
    ensures a * price + b * price == (a + b) * price
  {}

  lemma PreparedSupply(s: State, tx: Tx)
    ensures Prepared(s, tx).Supply() == s.Supply() - tx.GasCost()
  {
    SupplyAdd(s, Payer(tx), 0 - tx.GasCost());
  }

  lemma EnteredSupply(evm: Evm, s: State, tx: Tx)
    ensures Entered(evm, s, tx).Supply() == s.Supply() - (if tx.Creation() then 0 else tx.fee)
    ensures Begun(s, tx).Supply() == s.Supply()
  {
    var to, begun := Recipient(evm, s, tx), Begun(s, tx);
    if tx.Creation() {
      SupplySetNonce(s, tx.sender, s.Nonce(tx.sender) + 1);
      SupplySetNonce(begun, to, 1);
      SupplyTransfer(begun.SetNonce(to, 1), tx.sender, to, tx.amount);
    } else {
      SupplyTransfer(s, tx.sender, to, tx.amount);
      SupplyAdd(s.Transfer(tx.sender, to, tx.amount), tx.sender, -tx.fee);
    }
  }

  lemma RunSupply(evm: Evm, s: State, tx: Tx)
    requires Executable(evm, tx) && evm.Conserving()
    ensures RunMessage(evm, s, tx).state.Supply() == s.Supply() - tx.GasCost() - (if FeeCharged(evm, s, tx) then tx.fee else 0)
  {
    hide IntrinsicCost, State.Supply, Entered, Begun, Prepared;
    PreparedSupply(s, tx);
    EnteredSupply(evm, Prepared(s, tx), tx);
  }

  /**
   Balances fall by the price of the gas used and, where the fee is charged, by the fee: nothing
   else appears or disappears.
   */
  lemma ExecutedSupply(evm: Evm, s: State, tx: Tx)
    requires Executable(evm, tx) && evm.Conserving()
    ensures var o := Executed(evm, s, tx);
      o.state.Supply() == s.Supply() - o.used * tx.price - (if FeeCharged(evm, s, tx) then tx.fee else 0)
  {
    hide IntrinsicCost, State.Supply, State.AddBalance, RunMessage, FeeCharged;
    RunSupply(evm, s, tx);
    var r, left := RunMessage(evm, s, tx), LeftOver(evm, s, tx);
    SupplyAdd(r.state, Payer(tx), left * tx.price);
    Distribute(tx.price, left, tx.gas - left);
  }

  // The code ran and what it did was kept.
  predicate Kept(evm: Evm, s: State, tx: Tx)
    requires IntrinsicCost(tx.data, tx.Creation()) <= tx.gas
  {
    var error := RunMessage(evm, s, tx).error;
    && !Idle(evm, Prepared(s, tx), tx)
    && (error.None? || (error == Some(CodeStoreOutOfGas) && tx.Creation() && !evm.tip3))
  }

  // What account a gains or loses by the transaction's own transfers.
  function Moved(evm: Evm, s: State, tx: Tx, a: Address): int {
    (if a == Recipient(evm, Prepared(s, tx), tx) then tx.amount else 0)
    - (if a == tx.sender then tx.amount + (if tx.Creation() then 0 else tx.fee) else 0)
  }

  // What account a gains or loses by code and finalisation.
  ghost function ByCode(evm: Evm, s: State, tx: Tx, a: Address): int
    requires Executable(evm, tx)
  {
    var settled, r := Settled(evm, s, tx), RunMessage(evm, s, tx);
    evm.finalise(settled, tx).Balance(a) - settled.Balance(a)
    + (if Kept(evm, s, tx) then r.state.Balance(a) - Entered(evm, Prepared(s, tx), tx).Balance(a) else 0)
  }

  lemma BalanceAdded(s: State, a: Address, amount: int, b: Address)
    ensures s.AddBalance(a, amount).Balance(b) == s.Balance(b) + (if a == b then amount else 0)
  {}

  lemma PreparedBalance(s: State, tx: Tx, a: Address)
    ensures Prepared(s, tx).Balance(a) == s.Balance(a) - (if a == Payer(tx) then tx.GasCost() else 0)
  {}

  lemma EnteredBalance(evm: Evm, s: State, tx: Tx, a: Address)
    ensures var p := Prepared(s, tx); Entered(evm, p, tx).Balance(a) == p.Balance(a) + Moved(evm, s, tx, a)
  {}

  // The nonces the code starts with: the sender's one up, a created account's at one.
  lemma EnteredNonce(evm: Evm, s: State, tx: Tx, a: Address)
    ensures var p := Prepared(s, tx);
      Entered(evm, p, tx).Nonce(a) ==
        if tx.Creation() && a == evm.newAddress(tx.sender, s.Nonce(tx.sender)) then 1
        else s.Nonce(a) + (if a == tx.sender then 1 else 0)
  {}

  // Effects that are not kept leave every balance as it was prepared.
  lemma RunBalance(evm: Evm, s: State, tx: Tx, a: Address)
    requires Executable(evm, tx) && !Kept(evm, s, tx)
    ensures RunMessage(evm, s, tx).state.Balance(a) == Prepared(s, tx).Balance(a)
  {}

  /**
   Every single account: the payer is charged exactly the gas used times the price, sender and
   recipient exchange value and fee if the code's effects were kept, and the rest is the code's doing.
   */
  lemma AccountChange(evm: Evm, s: State, tx: Tx, a: Address)
    requires Executable(evm, tx)
    ensures Executed(evm, s, tx).state.Balance(a) == s.Balance(a)
      - (if a == (if tx.payer == EMPTY_ADDRESS then tx.sender else tx.payer) then Executed(evm, s, tx).used * tx.price else 0)
      + (if Kept(evm, s, tx) then Moved(evm, s, tx, a) else 0)
      + ByCode(evm, s, tx, a)
  {
    hide IntrinsicCost, RunMessage, Entered, Prepared, State.AddBalance, State.Balance, Kept;
    var left := LeftOver(evm, s, tx);
    Distribute(tx.price, left, tx.gas - left);
    BalanceAdded(s, Payer(tx), 0 - tx.GasCost(), a);
    BalanceAdded(RunMessage(evm, s, tx).state, Payer(tx), left * tx.price, a);
    PreparedBalance(s, tx, a);
    EnteredBalance(evm, s, tx, a);
    if !Kept(evm, s, tx) { RunBalance(evm, s, tx, a); }
  }

  /**
   An executed transaction raises its sender's nonce by one, so it is refused from then on; the
   single exception is a creation whose sender cannot pay value and fee, which leaves it unchanged.
   */
  lemma NonceAdvances(evm: Evm, s: State, tx: Tx, pool: nat, later: nat)
    requires Executable(evm, tx) && evm.KeepsNonces() && Refusal(s, tx, pool).None?
    ensures var o := Executed(evm, s, tx).state;
      var short := tx.Creation() && !Affordable(evm, Prepared(s, tx), tx);
      && o.Nonce(tx.sender) == s.Nonce(tx.sender) + (if short then 0 else 1)
      && (Refusal(o, tx, later) == Some(NonceTooLow) <==> !short)
  {
    hide IntrinsicCost, LeftOver;
  }

  /** A call without value from an empty account that is executed, and takes the account below zero by its fee. */
  lemma FeeOverdraws(evm: Evm, s: State, tx: Tx)
    requires Executable(evm, tx) && evm.present(Prepared(s, tx), 2) && s.Balance(1) == s.Nonce(1) == 0
    requires tx == Tx(1, EMPTY_ADDRESS, 0, 0, TX_GAS, 0, 1, Some(2), [], 0)
    requires var p := Entered(evm, Prepared(s, tx), tx); evm.run(p, tx, 0) == Run(p, 0, 0, [], None)
    requires forall t :: evm.finalise(t, tx) == t
    ensures Refusal(s, tx, tx.gas).None? && !Executed(evm, s, tx).failed && Executed(evm, s, tx).state.Balance(1) == -1
  {
    assert IntrinsicCost([], false) == TX_GAS;
    AccountChange(evm, s, tx, 1);
    hide IntrinsicCost, Entered, Settled, LeftOver;
  }

  // The gas still available to a block, a 64-bit counter.
  class GasPool {
    var gas: nat

    ghost predicate Valid() reads this { gas <= MAX_UINT64 }

    constructor ()
      ensures Valid() && gas == 0
    {
      gas := 0;
    }

    // The source panics on overflow; callers have to rule it out.
    method AddGas(amount: nat)
      requires gas + amount <= MAX_UINT64
      modifies this
      ensures Valid() && gas == old(gas) + amount
    {
      gas := gas + amount;
    }

    method SubGas(amount: nat) returns (ok: bool)
      requires Valid()
      modifies this
      ensures Valid() && ok == (amount <= old(gas))
      ensures gas == old(gas) - (if ok then amount else 0)
    {
      ok := amount <= gas;
      if ok { gas := gas - amount; }
    }
  }

  class StateDB {
    var state: State

    constructor (s: State)
      ensures state == s
    {
      state := s;
    }
  }

  datatype Execution = Refused(error: Error) | Done(used: nat, failed: bool, logs: seq<Log>)

  // One message on its way through the state, the gas it holds, and the block's pool.
  class StateTransition {
    const gp: GasPool
    const db: StateDB
    const evm: Evm
    const tx: Tx
    var gas: nat
    var initialGas: nat

    constructor (gp: GasPool, db: StateDB, evm: Evm, tx: Tx)
      ensures this.gp == gp && this.db == db && this.evm == evm && this.tx == tx && gas == 0 && initialGas == 0
    {
      this.gp, this.db, this.evm, this.tx, gas, initialGas := gp, db, evm, tx, 0, 0;
    }

    // buyGas and buyGasForPayment: the same steps for the account that pays.
    method BuyGas(account: Address, shortage: Error) returns (err: Option<Error>)
      requires gp.Valid() && gas == 0
      modifies this, gp, db
      ensures gp.Valid()
      ensures err == if old(db.state).Balance(account) < tx.GasCost() then Some(shortage)
                     else if old(gp.gas) < tx.gas then Some(GasLimitReached) else None
      ensures err.Some? ==> gp.gas == old(gp.gas) && db.state == old(db.state)
      ensures err.None? ==> gp.gas == old(gp.gas) - tx.gas && gas == tx.gas && initialGas == tx.gas
                            && db.state == old(db.state).AddBalance(account, 0 - tx.GasCost())
    {
      if db.state.Balance(account) < tx.GasCost() { return Some(shortage); }
      var ok := gp.SubGas(tx.gas);
      if !ok { return Some(GasLimitReached); }
      gas := gas + tx.gas;
      initialGas := tx.gas;
      db.state := db.state.AddBalance(account, 0 - tx.GasCost());
      err := None;
    }

    method PreCheck() returns (err: Option<Error>)
      requires gp.Valid() && gas == 0
      modifies this, gp, db
      ensures gp.Valid()
      ensures err.Some? ==> !TookGas(err.value) && Refusal(old(db.state), tx, old(gp.gas)) == err && gp.gas == old(gp.gas) && db.state == old(db.state)
      ensures err.None? ==>
        && (Refusal(old(db.state), tx, old(gp.gas)).Some? ==> TookGas(Refusal(old(db.state), tx, old(gp.gas)).value))
        && tx.gas <= old(gp.gas) && gp.gas == old(gp.gas) - tx.gas && gas == tx.gas && initialGas == tx.gas
        && db.state == old(db.state).AddBalance(Payer(tx), 0 - tx.GasCost())
        && db.state.Nonce(tx.sender) == tx.nonce
    {
      hide IntrinsicCost;
      var nonce := db.state.Nonce(tx.sender);
      if nonce < tx.nonce { return Some(NonceTooHigh); }
      if nonce > tx.nonce { return Some(NonceTooLow); }
      if tx.payer != EMPTY_ADDRESS {
        err := BuyGas(tx.payer, InsufficientBalanceForPayerForGas);
      } else {
        err := BuyGas(tx.sender, InsufficientBalanceForGas);
      }
    }

    // Gives back what is left and the refund; the pool cannot overflow, it only regains what was taken.
    method RefundGas(refundCounter: nat)
      requires gp.Valid() && gas <= initialGas && gp.gas + initialGas <= MAX_UINT64
      modifies this, gp, db
      ensures gp.Valid() && initialGas == old(initialGas)
      ensures gas == old(gas) + Refund(initialGas, Run(db.state, old(gas), refundCounter, [], None)) <= initialGas
      ensures gp.gas == old(gp.gas) + gas
      ensures db.state == old(db.state).AddBalance(Payer(tx), gas * tx.price)
    {
      var refund := (initialGas - gas) / 2;
      if refund > refundCounter { refund := refundCounter; }
      gas := gas + refund;
      var remaining := gas * tx.price;
      if tx.payer != EMPTY_ADDRESS {
        db.state := db.state.AddBalance(tx.payer, remaining);
      } else {
        db.state := db.state.AddBalance(tx.sender, remaining);
      }
      gp.AddGas(gas);
    }

    /**
     A refused message leaves the pool as it was, except that gas already bought is gone; an executed
     one takes exactly the gas it used from the pool.
     */
    method TransitionDb() returns (result: Execution)
      requires gp.Valid() && gas == 0 && evm.Bounded()
      modifies this, gp, db
      ensures gp.Valid()
      ensures result.Refused? ==>
        && Refusal(old(db.state), tx, old(gp.gas)) == Some(result.error)
        && old(gp.gas) == gp.gas + (if TookGas(result.error) then tx.gas else 0)
      ensures result.Done? ==>
        && Refusal(old(db.state), tx, old(gp.gas)) == None && Executable(evm, tx)
        && db.state == Settled(evm, old(db.state), tx)
        && Executed(evm, old(db.state), tx) == Outcome(evm.finalise(db.state, tx), result.used, result.failed, result.logs)
        && old(gp.gas) == gp.gas + result.used
    {
      hide IntrinsicCost, RunMessage;
      var err := PreCheck();
      if err.Some? { return Refused(err.value); }
      var intrinsic := IntrinsicGas(tx.data, tx.Creation());
      if intrinsic.None? { return Refused(GasUintOverflow); }
      if gas < intrinsic.value { return Refused(IntrinsicGasTooLow); }
      gas := gas - intrinsic.value;
      result := Execute(old(db.state));
    }

    /** Runs the code with the gas bought and the intrinsic gas paid, and settles what is left. */
    method Execute(ghost before: State) returns (result: Execution)
      requires gp.Valid() && evm.Bounded() && Executable(evm, tx) && initialGas == tx.gas && gp.gas + tx.gas <= MAX_UINT64
      requires gas == tx.gas - IntrinsicCost(tx.data, tx.Creation()) && db.state == before.AddBalance(Payer(tx), 0 - tx.GasCost())
      modifies this, gp, db
      ensures gp.Valid() && result.Done? && gp.gas + result.used == old(gp.gas) + tx.gas
      ensures db.state == Settled(evm, before, tx)
      ensures Executed(evm, before, tx) == Outcome(evm.finalise(db.state, tx), result.used, result.failed, result.logs)
    {
      hide IntrinsicCost, Call, Create;
      RunBounded(evm, before, tx);
      var r;
      if tx.Creation() {
        r := Create(evm, db.state, tx, gas);
      } else {
        db.state := db.state.SetNonce(tx.sender, db.state.Nonce(tx.sender) + 1);
        r := Call(evm, db.state, tx, gas);
      }
      assert r == RunMessage(evm, before, tx);
      hide RunMessage;
      db.state := r.state;
      gas := r.gas;
      RefundGas(r.refund);
      result := Done(initialGas - gas, r.error.Some?, r.logs);
    }
  }
}
