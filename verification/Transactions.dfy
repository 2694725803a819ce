/** Transactions as the pool and the state transition see them. */
module Transactions {

  type Address = nat

  /** The address that stands for "no payer named". */
  const EMPTY_ADDRESS: Address := 0
  /** The staking contract, which may not send transactions: the bytes of "truestaking". */
  const STAKING_ADDRESS: Address := 0x7472_7565_7374_616b_696e_67
  const MAX_UINT64: nat := 0xFFFF_FFFF_FFFF_FFFF
  const WORD: nat := 0x1_0000_0000_0000_0000

  function Max(a: int, b: int): int { if a < b then b else a }

  function Min(a: int, b: int): int { if a < b then a else b }

  newtype byte = x: int | 0 <= x < 0x100

  datatype Option<+T> = None | Some(value: T)

  /**
   A signed transaction. Transaction hashes are injective, so a transaction stands for its own
   hash; signatures are valid, so sender and payer are fields.
   */
  datatype Tx = Tx(sender: Address, payer: Address, nonce: nat, price: nat, gas: nat,
                   amount: int, fee: int, to: Option<Address>, data: seq<byte>, size: nat)
  {
    /** A transaction without a recipient creates a contract. */
    predicate Creation() { to.None? }

    function GasCost(): nat { price * gas }

    function AmountCost(): int { amount + fee }

    function Cost(): int { price * gas + amount + fee }

    /** Somebody else pays for the gas. */
    predicate ThirdPartyPayer() {
      payer != EMPTY_ADDRESS && payer != sender
    }

    /** What the sender's own balance has to cover. */
    function SenderCost(): int {
      if ThirdPartyPayer() then AmountCost() else Cost()
    }
  }

  function Elements<T>(s: seq<T>): (r: set<T>) {
    set x | x in s
  }
}
