/** The part of the world state that fees, nonces and transfers touch, and the sum of all balances. */
module WorldStates {
  import opened Transactions

  // Everything else in the state (code, storage, staking records), which only the interpreter reads.
  type World = nat

  datatype State = State(balances: map<Address, int>, nonces: map<Address, nat>, world: World) {
    function Balance(a: Address): int { if a in balances then balances[a] else 0 }

    function Nonce(a: Address): nat { if a in nonces then nonces[a] else 0 }

    function AddBalance(a: Address, amount: int): State { this.(balances := balances[a := Balance(a) + amount]) }

    function SetNonce(a: Address, nonce: nat): State { this.(nonces := nonces[a := nonce]) }

    function Transfer(sender: Address, recipient: Address, amount: int): State {
      AddBalance(sender, -amount).AddBalance(recipient, amount)
    }

    // The sum of all balances.
    ghost function Supply(): int { Sum(balances) }
  }

  ghost function Sum(m: map<Address, int>): int
    decreases |m|
  {
    if m == map[] then 0
    else
      var a :| a in m;
      m[a] + Sum(m - {a})
  }

  // Which account is summed first does not matter.
  lemma {:induction false} SumWithout(m: map<Address, int>, a: Address)
    requires a in m
    ensures Sum(m) == m[a] + Sum(m - {a})
    decreases |m|
  {
    var b :| b in m && Sum(m) == m[b] + Sum(m - {b});
    if b != a {
      SumWithout(m - {b}, a);
      SumWithout(m - {a}, b);
      assert m - {b} - {a} == m - {a} - {b};
    }
  }

  lemma SupplyAdd(s: State, a: Address, amount: int)
    ensures s.AddBalance(a, amount).Supply() == s.Supply() + amount
  {
    var m := s.balances;
    var n := s.AddBalance(a, amount).balances;
    SumWithout(n, a);
    assert n - {a} == m - {a};
    if a in m {
      SumWithout(m, a);
    } else {
      assert m - {a} == m;
    }
  }

  lemma SupplySetNonce(s: State, a: Address, nonce: nat)
    ensures s.SetNonce(a, nonce).Supply() == s.Supply()
  {}

  // Moving value never changes how much there is, also when sender and recipient coincide.
  lemma SupplyTransfer(s: State, sender: Address, recipient: Address, amount: int)
    ensures s.Transfer(sender, recipient, amount).Supply() == s.Supply()
  {
    SupplyAdd(s, sender, -amount);
    SupplyAdd(s.AddBalance(sender, -amount), recipient, amount);
  }
}
