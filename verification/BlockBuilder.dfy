/** The leader packs pending transactions into a block (etrue/pbft_agent.go). */
module BlockBuilders {
  import opened Transactions
  import opened IntrinsicCosts
  import opened Heaps
  import opened SortedMaps
  import opened WorldStates
  import opened StateTransitions
  import opened StateProcessors

  predicate DearerFirst(a: Tx, b: Tx) { b.price <= a.price }

  lemma DearerOrder()
    ensures TotalPreorder(DearerFirst)
  {}

  type Lines = map<Address, seq<Tx>>

  function LineOf(lines: Lines, a: Address): seq<Tx> { if a in lines then lines[a] else [] }

  // t is the next transaction of its account.
  predicate First(lines: Lines, t: Tx) { LineOf(lines, t.sender) != [] && LineOf(lines, t.sender)[0] == t }

  // The heap holds the first of every line, each once.
  ghost predicate Heads(heads: seq<Tx>, lines: Lines) {
    forall t :: multiset(heads)[t] == if First(lines, t) then 1 else 0
  }

  ghost predicate OwnLines(lines: Lines) {
    forall a, k :: a in lines && 0 <= k < |lines[a]| ==> lines[a][k].sender == a
  }

  ghost function Waiting(lines: Lines): int { Sum(map a | a in lines :: |lines[a]|) }

  lemma {:induction false} SumNonNegative(m: map<Address, int>)
    requires forall a :: a in m ==> 0 <= m[a]
    ensures 0 <= Sum(m)
    decreases |m|
  {
    if m != map[] {
      var a :| a in m;
      SumWithout(m, a);
      SumNonNegative(m - {a});
    }
  }

  lemma WaitingShrinks(lines: Lines, a: Address, shorter: seq<Tx>)
    requires a in lines && |shorter| < |lines[a]|
    ensures 0 <= Waiting(lines[a := shorter]) < Waiting(lines)
  {
    var m := map b | b in lines :: |lines[b]|;
    var after := lines[a := shorter];
    var n := map b | b in after :: |after[b]|;
    SumWithout(m, a);
    SumWithout(n, a);
    assert m - {a} == n - {a};
    SumNonNegative(n);
  }

  lemma HeadMember(heads: seq<Tx>, lines: Lines, t: Tx)
    requires Heads(heads, lines)
    ensures t in heads <==> First(lines, t)
  {}

  method FirstHeads(pending: Lines) returns (heads: seq<Tx>)
    requires OwnLines(pending) && forall a :: a in pending ==> pending[a] != []
    ensures Ordered(heads, DearerFirst) && Heads(heads, pending)
  {
    var order := Enumerate(pending.Keys);
    NoRepeats(order, pending.Keys);
    heads := seq(|order|, i requires 0 <= i < |order| => pending[order[i]][0]);
    FirstOnce(pending, order, heads);
    DearerOrder();
    heads := Init(heads, DearerFirst);
  }

  /** TransactionsByPriceAndNonce: per account in nonce order, across accounts by price. */
  class TxQueue {
    var txs: Lines
    var heads: seq<Tx>
    ghost var lines: Lines

    ghost predicate Valid()
      reads this
    {
      && Ordered(heads, DearerFirst) && Heads(heads, lines) && OwnLines(lines)
      && forall a :: a in lines && lines[a] != [] ==> a in txs && txs[a] == lines[a][1..]
    }

    constructor (pending: Lines)
      requires OwnLines(pending) && forall a :: a in pending ==> pending[a] != []
      ensures Valid() && lines == pending
    {
      txs := map a | a in pending :: pending[a][1..];
      heads := [];
      lines := pending;
      new;
      heads := FirstHeads(pending);
    }

    // The dearest of the next transactions, or none when all lines are done.
    method Peek() returns (r: Option<Tx>)
      requires Valid()
      ensures r.None? ==> heads == [] && forall a :: LineOf(lines, a) == []
      ensures r.Some? ==> heads != [] && r.value == heads[0] && First(lines, r.value)
      ensures r.Some? ==> forall t :: First(lines, t) ==> t.price <= r.value.price
    {
      if |heads| == 0 {
        forall a ensures LineOf(lines, a) == [] {
          if LineOf(lines, a) != [] {
            HeadMember(heads, lines, lines[a][0]);
          }
        }
        return None;
      }
      r := Some(heads[0]);
      HeadMember(heads, lines, heads[0]);
      DearerOrder();
      forall t | First(lines, t) ensures t.price <= r.value.price {
        HeadMember(heads, lines, t);
        var i :| 0 <= i < |heads| && heads[i] == t;
        FrontIsLeast(heads, i, DearerFirst);
      }
    }

    // Moves the dearest account on to its next transaction.
    method Shift()
      requires Valid() && heads != []
      modifies this
      ensures Valid()
      ensures var a := old(heads)[0].sender;
        a in old(lines) && old(lines)[a] != [] && lines == old(lines)[a := old(lines)[a][1..]]
    {
      DearerOrder();
      var t := heads[0];
      var acc := t.sender;
      HeadMember(heads, lines, t);
      ghost var next := lines[acc := lines[acc][1..]];
      OwnLinesShorter(lines, acc, lines[acc][1..]);
      if acc in txs && |txs[acc]| > 0 {
        Replaced(heads, lines, t, next);
        heads := ReplaceFront(heads, txs[acc][0], DearerFirst);
        txs := txs[acc := txs[acc][1..]];
      } else {
        var _, rest := Heaps.Pop(heads, DearerFirst);
        heads := rest;
        Dropped(old(heads), heads, lines, t, next);
      }
      lines := next;
    }

    // Gives up on the dearest account.
    method Pop()
      requires Valid() && heads != []
      modifies this
      ensures Valid()
      ensures var a := old(heads)[0].sender;
        a in old(lines) && old(lines)[a] != [] && lines == old(lines)[a := []]
    {
      DearerOrder();
      var t := heads[0];
      HeadMember(heads, lines, t);
      var _, rest := Heaps.Pop(heads, DearerFirst);
      heads := rest;
      Dropped(old(heads), heads, lines, t, lines[t.sender := []]);
      OwnLinesShorter(lines, t.sender, []);
      lines := lines[t.sender := []];
    }
  }

  lemma FirstOnce(pending: Lines, order: seq<Address>, first: seq<Tx>)
    requires OwnLines(pending) && forall a :: a in pending ==> pending[a] != []
    requires forall i, j :: 0 <= i < j < |order| ==> order[i] != order[j]
    requires forall a :: a in order <==> a in pending
    requires |first| == |order| && forall i :: 0 <= i < |order| ==> first[i] == pending[order[i]][0]
    ensures Heads(first, pending)
  {
    assert forall i :: 0 <= i < |order| ==> first[i].sender == order[i];
    ListedOnce(first, Elements(first));
    forall t ensures multiset(first)[t] == if First(pending, t) then 1 else 0 {
      if First(pending, t) {
        var i :| 0 <= i < |order| && order[i] == t.sender;
        assert first[i] == t;
      }
    }
  }

  lemma OwnLinesShorter(lines: Lines, a: Address, line: seq<Tx>)
    requires OwnLines(lines) && a in lines && (line == [] || (lines[a] != [] && line == lines[a][1..]))
    ensures OwnLines(lines[a := line])
  {}

  lemma Replaced(heads: seq<Tx>, lines: Lines, t: Tx, next: Lines)
    requires Heads(heads, lines) && heads != [] && heads[0] == t && OwnLines(lines)
    requires t.sender in lines && |lines[t.sender]| > 1 && lines[t.sender][0] == t
    requires next == lines[t.sender := lines[t.sender][1..]]
    ensures Heads(heads[0 := lines[t.sender][1]], next)
  {}

  lemma Dropped(heads: seq<Tx>, rest: seq<Tx>, lines: Lines, t: Tx, next: Lines)
    requires Heads(heads, lines) && OwnLines(lines) && multiset(heads) == multiset(rest) + multiset{t}
    requires t.sender in lines && lines[t.sender] != [] && lines[t.sender][0] == t
    requires next == lines[t.sender := []]
    ensures Heads(rest, next)
  {
    forall v ensures multiset(rest)[v] == if First(next, v) then 1 else 0 {
      assert multiset(heads)[v] == if First(lines, v) then 1 else 0;
      assert v.sender != t.sender ==> (First(next, v) <==> First(lines, v));
    }
  }

  // A transaction that was tried, in which state and with how much gas in the pool, and why it was refused, if it was.
  datatype Attempt = Attempt(tx: Tx, state: State, pool: nat, err: Option<Error>)

  function Verdict(s: State, tx: Tx, pool: nat): Option<Error> {
    if tx.sender == STAKING_ADDRESS then Some(ForbiddenAddress) else Refusal(s, tx, pool)
  }

  /**
   Every attempt met the state after the transactions packed so far and a pool no larger than the
   committee's would be there, and its outcome is the refusal that holds in them, or none.
   */
  ghost predicate Truthful(evm: Evm, parent: State, limit: nat, txs: seq<Tx>, attempts: seq<Attempt>)
    requires evm.Bounded()
  {
    attempts != [] ==>
      var init, last := attempts[..|attempts| - 1], attempts[|attempts| - 1];
      var before := Replay(evm, parent, txs + Packed(init), limit);
      && Truthful(evm, parent, limit, txs, init)
      && before.Some? && last.state == before.value.state && last.pool + before.value.used <= limit
      && last.err == Verdict(last.state, last.tx, last.pool)
  }

  lemma TruthfulOne(evm: Evm, parent: State, limit: nat, txs: seq<Tx>, attempts: seq<Attempt>, a: Attempt, p: Progress)
    requires evm.Bounded() && Truthful(evm, parent, limit, txs, attempts)
    requires Replay(evm, parent, txs + Packed(attempts), limit) == Some(p) && a.state == p.state && a.pool + p.used <= limit
    requires a.err == Verdict(a.state, a.tx, a.pool)
    ensures Truthful(evm, parent, limit, txs, attempts + [a])
  {
    hide Replay, Refusal, Packed;
    assert (attempts + [a])[..|attempts + [a]| - 1] == attempts;
  }

  predicate EndsLine(a: Attempt) { a.err == Some(GasLimitReached) || a.err == Some(NonceTooHigh) }

  // After running out of gas or ahead of its nonce an account is given up; else its next transaction is up.
  function Advance(lines: Lines, a: Attempt): Lines {
    var line := LineOf(lines, a.tx.sender);
    lines[a.tx.sender := if EndsLine(a) || line == [] then [] else line[1..]]
  }

  function LinesAfter(lines: Lines, attempts: seq<Attempt>): Lines {
    if attempts == [] then lines
    else Advance(LinesAfter(lines, attempts[..|attempts| - 1]), attempts[|attempts| - 1])
  }

  ghost predicate Dearest(lines: Lines, t: Tx) {
    First(lines, t) && forall u :: First(lines, u) ==> u.price <= t.price
  }

  // Every attempt takes the dearest of the transactions that are next in line.
  ghost predicate Orderly(lines: Lines, attempts: seq<Attempt>) {
    attempts != [] ==>
      var init := attempts[..|attempts| - 1];
      Orderly(lines, init) && Dearest(LinesAfter(lines, init), attempts[|attempts| - 1].tx)
  }

  function Packed(attempts: seq<Attempt>): seq<Tx> {
    if attempts == [] then []
    else
      var last := attempts[|attempts| - 1];
      Packed(attempts[..|attempts| - 1]) + (if last.err.None? then [last.tx] else [])
  }

  function TriedBy(attempts: seq<Attempt>, a: Address): seq<Tx> {
    if attempts == [] then []
    else
      var last := attempts[|attempts| - 1];
      TriedBy(attempts[..|attempts| - 1], a) + (if last.tx.sender == a then [last.tx] else [])
  }

  // The block had no room for a transaction of the account, or the nonce was not yet up.
  ghost predicate GivenUp(attempts: seq<Attempt>, a: Address) {
    exists k :: 0 <= k < |attempts| && attempts[k].tx.sender == a && EndsLine(attempts[k])
  }

  /**
   Each account's transactions are tried in the order of its line, none skipped and none twice. What is
   untried is still in line, unless one of the account's transactions found no room or was ahead of its nonce.
   */
  lemma {:induction false} TriedInOrder(lines: Lines, attempts: seq<Attempt>, a: Address)
    requires Orderly(lines, attempts)
    ensures TriedBy(attempts, a) <= LineOf(lines, a)
    ensures LineOf(LinesAfter(lines, attempts), a) == if GivenUp(attempts, a) then [] else LineOf(lines, a)[|TriedBy(attempts, a)|..]
  {
    if attempts != [] {
      hide Advance, LineOf, First, GivenUp, EndsLine;
      var init, last := attempts[..|attempts| - 1], attempts[|attempts| - 1];
      TriedInOrder(lines, init, a);
      GivenUpSoFar(attempts, a);
      NextInLine(LinesAfter(lines, init), last, a);
      if last.tx.sender == a {
        var line, n := LineOf(lines, a), |TriedBy(init, a)|;
        assert line[n..][0] == last.tx && line[n..][1..] == line[n + 1..];
      }
    }
  }

  lemma GivenUpSoFar(attempts: seq<Attempt>, a: Address)
    ensures attempts == [] ==> !GivenUp(attempts, a)
    ensures attempts != [] ==>
      var init, last := attempts[..|attempts| - 1], attempts[|attempts| - 1];
      GivenUp(attempts, a) <==> GivenUp(init, a) || (last.tx.sender == a && EndsLine(last))
  {
    hide EndsLine;
    if attempts != [] {
      var init := attempts[..|attempts| - 1];
      assert forall k :: 0 <= k < |init| ==> init[k] == attempts[k];
    }
  }

  lemma NextInLine(lines: Lines, last: Attempt, a: Address)
    requires First(lines, last.tx)
    ensures LineOf(lines, last.tx.sender) != [] && LineOf(lines, last.tx.sender)[0] == last.tx
    ensures LineOf(Advance(lines, last), a) ==
      if last.tx.sender != a then LineOf(lines, a) else if EndsLine(last) then [] else LineOf(lines, a)[1..]
  {}

  // Such an attempt is the account's last.
  lemma {:induction false} GivenUpForGood(lines: Lines, attempts: seq<Attempt>, j: nat, k: nat)
    requires Orderly(lines, attempts) && j < k < |attempts| && EndsLine(attempts[j])
    ensures attempts[k].tx.sender != attempts[j].tx.sender
    decreases |attempts|
  {
    hide LinesAfter, Advance, LineOf, EndsLine, TriedBy;
    var init := attempts[..|attempts| - 1];
    assert init[j] == attempts[j];
    if k == |init| {
      TriedInOrder(lines, init, attempts[j].tx.sender);
      assert GivenUp(init, attempts[j].tx.sender);
    } else {
      GivenUpForGood(lines, init, j, k);
    }
  }

  // Why a transaction that was in line is not tried.
  lemma UntriedFor(lines: Lines, attempts: seq<Attempt>, pool: nat, a: Address)
    requires Orderly(lines, attempts) && (pool < TX_GAS || forall b :: LineOf(LinesAfter(lines, attempts), b) == [])
    ensures TriedBy(attempts, a) == LineOf(lines, a) || GivenUp(attempts, a) || pool < TX_GAS
  {
    TriedInOrder(lines, attempts, a);
  }

  lemma OneMore(lines: Lines, attempts: seq<Attempt>, a: Attempt)
    ensures LinesAfter(lines, attempts + [a]) == Advance(LinesAfter(lines, attempts), a)
    ensures Packed(attempts + [a]) == Packed(attempts) + (if a.err.None? then [a.tx] else [])
    ensures Orderly(lines, attempts) && Dearest(LinesAfter(lines, attempts), a.tx) ==> Orderly(lines, attempts + [a])
  {}

  /** The block under construction: whatever was packed so far replays from the parent state. */
  class AgentWork {
    const evm: Evm
    const parent: State
    const limit: nat
    const gp: GasPool
    const db: StateDB
    const totals: Totals
    var txs: seq<Tx>
    var receipts: seq<Receipt>

    ghost function Progressed(): Progress
      reads this, db, totals
    {
      Progress(db.state, totals.usedGas, totals.fees, receipts)
    }

    ghost predicate Valid()
      reads this, gp, db, totals
    {
      && evm.Bounded() && gp.Valid()
      && Replay(evm, parent, txs, limit) == Some(Progressed())
      && gp.gas <= limit - totals.usedGas
    }

    constructor (evm: Evm, parent: State, limit: nat)
      requires evm.Bounded() && limit <= MAX_UINT64
      ensures Valid() && txs == [] && fresh(gp) && fresh(db) && fresh(totals)
      ensures this.evm == evm && this.parent == parent && this.limit == limit && gp.gas == limit
    {
      this.evm, this.parent, this.limit := evm, parent, limit;
      gp := new GasPool();
      db := new StateDB(parent);
      totals := new Totals();
      txs, receipts := [], [];
      new;
      gp.AddGas(limit);
    }

    // Tries one transaction; whatever happens, what is packed still replays.
    method CommitTransaction(tx: Tx) returns (err: Option<Error>)
      requires Valid()
      modifies this, gp, db, totals
      ensures Valid() && gp.gas <= old(gp.gas)
      ensures txs == if err.None? then old(txs) + [tx] else old(txs)
      ensures err.Some? ==> Progressed() == old(Progressed())
      ensures err == Verdict(old(db.state), tx, old(gp.gas))
    {
      hide Executed, IntrinsicCost, After, Replay, Refusal, ReceiptFor;
      var snapshot := db.state;
      if tx.sender == STAKING_ADDRESS { return Some(ForbiddenAddress); }
      ghost var p := Progressed();
      var applied := ApplyTransaction(evm, tx, gp, db, totals, |txs|);
      if applied.Failed? {
        db.state := snapshot;
        return Some(applied.error);
      }
      MorePool(p.state, tx, old(gp.gas), limit - p.used);
      ReplayOne(evm, parent, txs, tx, limit);
      txs := txs + [tx];
      receipts := receipts + [applied.receipt];
      AfterApplied(evm, p, tx, Progressed());
      err := None;
    }

    /**
     Packs until the pool cannot hold another transaction or the queue is done. The result replays
     on a fresh pool of the block's limit, gas lost to refused transactions notwithstanding.
     */
    method CommitTransactions(queue: TxQueue) returns (ghost attempts: seq<Attempt>)
      requires Valid() && queue.Valid()
      modifies this, gp, db, totals, queue
      ensures Valid()
      ensures gp.gas < TX_GAS || forall a :: LineOf(queue.lines, a) == []
      ensures Orderly(old(queue.lines), attempts) && queue.lines == LinesAfter(old(queue.lines), attempts)
      ensures txs == old(txs) + Packed(attempts) && Truthful(evm, parent, limit, old(txs), attempts)
      ensures forall a :: TriedBy(attempts, a) == LineOf(old(queue.lines), a) || GivenUp(attempts, a) || gp.gas < TX_GAS
    {
      hide TriedBy, GivenUp, Replay, Verdict, Orderly, Truthful, LinesAfter, Packed, Heads, OwnLines, Waiting, First, Ordered;
      attempts := [];
      NoAttempts(queue.lines, evm, parent, limit, txs);
      while true
        invariant Valid() && queue.Valid()
        invariant Orderly(old(queue.lines), attempts) && queue.lines == LinesAfter(old(queue.lines), attempts)
        invariant txs == old(txs) + Packed(attempts) && Truthful(evm, parent, limit, old(txs), attempts)
        decreases Waiting(queue.lines)
      {
        if gp.gas < TX_GAS { break; }
        var next := queue.Peek();
        if next.None? { break; }
        ghost var lines, p, pool := queue.lines, Progressed(), gp.gas;
        var err := CommitTransaction(next.value);
        if err == Some(GasLimitReached) || err == Some(NonceTooHigh) {
          queue.Pop();
          WaitingShrinks(lines, next.value.sender, []);
        } else {
          queue.Shift();
          WaitingShrinks(lines, next.value.sender, lines[next.value.sender][1..]);
        }
        ghost var attempt := Attempt(next.value, p.state, pool, err);
        OneMore(old(queue.lines), attempts, attempt);
        TruthfulOne(evm, parent, limit, old(txs), attempts, attempt, p);
        assert old(txs) + Packed(attempts) + [next.value] == old(txs) + (Packed(attempts) + [next.value]);
        assert Packed(attempts) + [] == Packed(attempts);
        attempts := attempts + [attempt];
      }
      forall a
        ensures TriedBy(attempts, a) == LineOf(old(queue.lines), a) || GivenUp(attempts, a) || gp.gas < TX_GAS
      {
        UntriedFor(old(queue.lines), attempts, gp.gas, a);
      }
    }
  }

  lemma NoAttempts(lines: Lines, evm: Evm, parent: State, limit: nat, txs: seq<Tx>)
    requires evm.Bounded()
    ensures Orderly(lines, []) && LinesAfter(lines, []) == lines && Packed([]) == [] && Truthful(evm, parent, limit, txs, [])
  {}

  /** The leader's block and the committee's: same state, same gas, same fees, same receipts. */
  method BuildAndVerify(evm: Evm, parent: State, limit: nat, pending: Lines, committee: StateDB)
    returns (txs: seq<Tx>, built: Progress, verified: Option<Progress>)
    requires evm.Bounded() && limit <= MAX_UINT64 && committee.state == parent
    requires OwnLines(pending) && forall a :: a in pending ==> pending[a] != []
    modifies committee
    ensures verified == Some(built) && committee.state == built.state
    ensures built.used <= limit
  {
    var work := new AgentWork(evm, parent, limit);
    var queue := new TxQueue(pending);
    var _ := work.CommitTransactions(queue);
    txs := work.txs;
    built := Progress(work.db.state, work.totals.usedGas, work.totals.fees, work.receipts);
    verified := Process(evm, txs, limit, committee);
  }
}
