/** The gas a transaction pays before any of it is executed. */
module IntrinsicCosts {
  import opened Transactions

  const TX_GAS: nat := 21000
  const TX_GAS_CONTRACT_CREATION: nat := 53000
  const TX_DATA_ZERO_GAS: nat := 4
  const TX_DATA_NON_ZERO_GAS: nat := 68

  function NonZeroBytes(data: seq<byte>): nat {
    if data == [] then 0 else NonZeroBytes(data[..|data| - 1]) + (if data[|data| - 1] != 0 then 1 else 0)
  }

  /** The intrinsic cost over unbounded integers. */
  function IntrinsicCost(data: seq<byte>, creation: bool): nat
  {
    NonZeroAtMostAll(data);
    (if creation then TX_GAS_CONTRACT_CREATION else TX_GAS)
    + NonZeroBytes(data) * TX_DATA_NON_ZERO_GAS + (|data| - NonZeroBytes(data)) * TX_DATA_ZERO_GAS
  }

  lemma NonZeroAtMostAll(data: seq<byte>)
    ensures NonZeroBytes(data) <= |data|
  {}

  /** Every byte is paid for on its own, wherever it stands, on top of the cost of an empty transaction. */
  lemma {:induction false} CostPerByte(data: seq<byte>, more: seq<byte>, creation: bool)
    ensures IntrinsicCost(data + more, creation) == IntrinsicCost(data, creation) + IntrinsicCost(more, creation) - IntrinsicCost([], creation)
    ensures forall b :: IntrinsicCost([b], creation) == (if creation then 53000 else 21000) + (if b == 0 then 4 else 68)
    decreases |more|
  {
    if more == [] {
      assert data + more == data;
    } else {
      var init, last := more[..|more| - 1], more[|more| - 1];
      CostPerByte(data, init, creation);
      assert (data + more)[..|data + more| - 1] == data + init;
    }
    forall b
      ensures NonZeroBytes([b]) == if b == 0 then 0 else 1
    {
      assert [b][..0] == [];
    }
  }

  /** The 64-bit computation fails exactly when the true cost does not fit in 64 bits. */
  method IntrinsicGas(data: seq<byte>, creation: bool) returns (cost: Option<nat>)
    ensures cost == if IntrinsicCost(data, creation) <= MAX_UINT64 then Some(IntrinsicCost(data, creation)) else None
  {
    var gas := if creation then TX_GAS_CONTRACT_CREATION else TX_GAS;
    if |data| > 0 {
      var nz := 0;
      for i := 0 to |data|
        invariant nz == NonZeroBytes(data[..i]) <= i
      {
        assert data[..i + 1][..i] == data[..i];
        if data[i] != 0 { nz := nz + 1; }
      }
      assert data[..|data|] == data;
      if (MAX_UINT64 - gas) / TX_DATA_NON_ZERO_GAS < nz { return None; }
      gas := gas + nz * TX_DATA_NON_ZERO_GAS;
      var z := |data| - nz;
      if (MAX_UINT64 - gas) / TX_DATA_ZERO_GAS < z { return None; }
      gas := gas + z * TX_DATA_ZERO_GAS;
    }
    cost := Some(gas);
  }
}
