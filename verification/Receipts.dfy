/** SetReceiptsData (core/blockchain.go): stored receipts get back the fields that are derived from their block. */
module Receipts {
  import opened Transactions
  import opened WorldStates
  import opened StateTransitions
  import opened StateProcessors

  datatype LogEntry = LogEntry(log: Log, block: nat, number: nat, tx: Option<Tx>, txIndex: nat, index: nat)

  datatype Stored = Stored(cumulativeGasUsed: nat, failed: bool, logs: seq<LogEntry>, tx: Option<Tx>,
                           block: nat, number: nat, txIndex: nat, contract: Option<Address>, gasUsed: nat)

  // How many logs come before the j-th receipt.
  function LogsBefore(receipts: seq<Stored>, j: nat): nat
    requires j <= |receipts|
  {
    if j == 0 then 0 else LogsBefore(receipts, j - 1) + |receipts[j - 1].logs|
  }

  function FilledLogs(logs: seq<LogEntry>, block: nat, number: nat, tx: Tx, txIndex: nat, first: nat): seq<LogEntry> {
    seq(|logs|, k requires 0 <= k < |logs| => LogEntry(logs[k].log, block, number, Some(tx), txIndex, first + k))
  }

  // The gas of one transaction from two running totals, as 64-bit subtraction.
  function GasOf(total: nat, earlier: Option<nat>): nat {
    if earlier.None? then total else (total - earlier.value) % WORD
  }

  function FilledOne(r: Stored, earlier: Option<nat>, tx: Tx, block: nat, number: nat, newAddress: (Address, nat) -> Address,
                     j: nat, first: nat): Stored
  {
    Stored(r.cumulativeGasUsed, r.failed, FilledLogs(r.logs, block, number, tx, j, first), Some(tx), block, number, j,
           if tx.Creation() then Some(newAddress(tx.sender, tx.nonce)) else r.contract, GasOf(r.cumulativeGasUsed, earlier))
  }

  function Filled(receipts: seq<Stored>, txs: seq<Tx>, block: nat, number: nat, newAddress: (Address, nat) -> Address, j: nat): Stored
    requires j < |receipts| == |txs|
  {
    FilledOne(receipts[j], if j == 0 then None else Some(receipts[j - 1].cumulativeGasUsed), txs[j], block, number, newAddress,
              j, LogsBefore(receipts, j))
  }

  method FillLogs(logs: seq<LogEntry>, block: nat, number: nat, tx: Tx, txIndex: nat, first: nat)
    returns (filled: seq<LogEntry>, next: nat)
    ensures filled == FilledLogs(logs, block, number, tx, txIndex, first) && next == first + |logs|
  {
    filled, next := logs, first;
    for k := 0 to |logs|
      invariant |filled| == |logs| && next == first + k
      invariant forall i :: 0 <= i < k ==> filled[i] == FilledLogs(logs, block, number, tx, txIndex, first)[i]
      invariant forall i :: k <= i < |logs| ==> filled[i] == logs[i]
    {
      filled := filled[k := LogEntry(filled[k].log, block, number, Some(tx), txIndex, next)];
      next := next + 1;
    }
  }

  method FillOne(receipt: Stored, earlier: Option<nat>, tx: Tx, block: nat, number: nat, newAddress: (Address, nat) -> Address,
                 j: nat, first: nat)
    returns (r: Stored, next: nat)
    ensures r == FilledOne(receipt, earlier, tx, block, number, newAddress, j, first) && next == first + |receipt.logs|
  {
    hide FilledLogs;
    r := receipt.(tx := Some(tx), block := block, number := number, txIndex := j);
    if tx.Creation() {
      r := r.(contract := Some(newAddress(tx.sender, tx.nonce)));
    }
    if earlier.None? {
      r := r.(gasUsed := r.cumulativeGasUsed);
    } else {
      r := r.(gasUsed := (r.cumulativeGasUsed - earlier.value) % WORD);
    }
    var logs;
    logs, next := FillLogs(r.logs, block, number, tx, j, first);
    r := r.(logs := logs);
  }

  lemma NoLogsBefore(receipts: seq<Stored>)
    ensures LogsBefore(receipts, 0) == 0
  {}

  lemma FilledStep(receipts: seq<Stored>, txs: seq<Tx>, block: nat, number: nat, newAddress: (Address, nat) -> Address, j: nat)
    requires j < |receipts| == |txs|
    ensures var earlier := if j == 0 then None else Some(receipts[j - 1].cumulativeGasUsed);
      Filled(receipts, txs, block, number, newAddress, j)
        == FilledOne(receipts[j], earlier, txs[j], block, number, newAddress, j, LogsBefore(receipts, j))
    ensures j > 0 ==>
      Filled(receipts, txs, block, number, newAddress, j - 1).cumulativeGasUsed == receipts[j - 1].cumulativeGasUsed
    ensures LogsBefore(receipts, j + 1) == LogsBefore(receipts, j) + |receipts[j].logs|
  {}

  method SetReceiptsData(receipts: array<Stored>, txs: seq<Tx>, block: nat, number: nat, newAddress: (Address, nat) -> Address)
    returns (ok: bool)
    modifies receipts
    ensures ok == (|txs| == receipts.Length)
    ensures !ok ==> receipts[..] == old(receipts[..])
    ensures ok ==> forall j :: 0 <= j < receipts.Length ==>
      receipts[j] == Filled(old(receipts[..]), txs, block, number, newAddress, j)
  {
    hide Filled, FilledOne, LogsBefore;
    if |txs| != receipts.Length { return false; }
    ghost var before := receipts[..];
    var logIndex := 0;
    NoLogsBefore(before);
    for j := 0 to receipts.Length
      invariant logIndex == LogsBefore(before, j)
      invariant forall i :: 0 <= i < j ==> receipts[i] == Filled(before, txs, block, number, newAddress, i)
      invariant forall i :: j <= i < receipts.Length ==> receipts[i] == before[i]
    {
      FilledStep(before, txs, block, number, newAddress, j);
      var earlier := if j == 0 then None else Some(receipts[j - 1].cumulativeGasUsed);
      receipts[j], logIndex := FillOne(receipts[j], earlier, txs[j], block, number, newAddress, j, logIndex);
    }
    ok := true;
  }

  // What of a receipt is stored: the running total, the status and the logs.
  ghost predicate StoredFrom(stored: seq<Stored>, receipts: seq<Receipt>) {
    |stored| == |receipts| && forall j :: 0 <= j < |stored| ==>
      && stored[j].cumulativeGasUsed == receipts[j].cumulativeGasUsed && stored[j].failed == receipts[j].failed
      && |stored[j].logs| == |receipts[j].logs|
      && forall k :: 0 <= k < |stored[j].logs| ==> stored[j].logs[k].log == receipts[j].logs[k]
  }

  /**
   Round trip: filling in the stored receipts of a processed block gives back the gas, status,
   transaction, index, contract address and logs each receipt had when it was made; every log names its
   block, its transaction and the number of logs before it.
   */
  lemma FilledRecovers(evm: Evm, s: State, txs: seq<Tx>, limit: nat, stored: seq<Stored>, block: nat, number: nat, j: nat)
    requires evm.Bounded() && Replay(evm, s, txs, limit).Some? && limit <= MAX_UINT64
    requires StoredFrom(stored, Replay(evm, s, txs, limit).value.receipts) && j < |txs|
    ensures var r, f := Replay(evm, s, txs, limit).value.receipts[j], Filled(stored, txs, block, number, evm.newAddress, j);
      && f.gasUsed == r.gasUsed && f.tx == Some(r.tx) && f.txIndex == r.index
      && (r.contract.Some? ==> f.contract == r.contract)
      && |f.logs| == |r.logs| && f.failed == r.failed && f.block == block && f.number == number
      && forall k :: 0 <= k < |r.logs| ==>
        f.logs[k] == LogEntry(r.logs[k], block, number, Some(txs[j]), j, LogsBefore(stored, j) + k)
  {
    hide Replay, Executed, Recipient, Prepared, LogsBefore, Running;
    ReplayReceipts(evm, s, txs, limit);
    ReplayReceiptAt(evm, s, txs, limit, j);
    var receipts := Replay(evm, s, txs, limit).value.receipts;
    assert receipts[j].cumulativeGasUsed <= limit;
    assert RunningAt(receipts, j) by { RunsAt(receipts, j); }
    if j > 0 {
      var i := j - 1;
      assert stored[i].cumulativeGasUsed == receipts[i].cumulativeGasUsed;
    }
  }

  lemma RunsAt(receipts: seq<Receipt>, j: nat)
    requires Running(receipts) && j < |receipts|
    ensures RunningAt(receipts, j)
  {}

  // The log indices of the first n filled receipts, in order.
  ghost function Indices(receipts: seq<Stored>, txs: seq<Tx>, block: nat, number: nat, newAddress: (Address, nat) -> Address, n: nat): seq<nat>
    requires n <= |receipts| == |txs|
  {
    if n == 0 then []
    else
      var logs := Filled(receipts, txs, block, number, newAddress, n - 1).logs;
      Indices(receipts, txs, block, number, newAddress, n - 1) + seq(|logs|, k requires 0 <= k < |logs| => logs[k].index)
  }

  /** Across the whole block the log indices count 0, 1, 2, ... without gap or repetition. */
  lemma {:induction false} IndicesConsecutive(receipts: seq<Stored>, txs: seq<Tx>, block: nat, number: nat,
                                              newAddress: (Address, nat) -> Address, n: nat)
    requires n <= |receipts| == |txs|
    ensures var all := Indices(receipts, txs, block, number, newAddress, n);
      |all| == LogsBefore(receipts, n) && forall i :: 0 <= i < |all| ==> all[i] == i
  {
    if n > 0 {
      IndicesConsecutive(receipts, txs, block, number, newAddress, n - 1);
    }
  }
}
