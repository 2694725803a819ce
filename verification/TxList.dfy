/** txList: an account's transactions, with price-bump replacement and cached cost and gas caps. */
module TxLists {
  import opened Transactions
  import opened NonceItems
  import opened SortedMaps

  /** What a list is, apart from how it is indexed. */
  datatype ListView = ListView(strict: bool, items: Items, costcap: int, gascap: nat)

  function EmptyList(strict: bool): ListView {
    ListView(strict, map[], 0, 0)
  }

  /** A stored transaction may only be replaced at a strictly higher price that meets the bump. */
  predicate Bumps(old_: Tx, tx: Tx, priceBump: nat) {
    old_.price < tx.price && old_.price * (100 + priceBump) / 100 <= tx.price
  }

  /** Over exact fractions: the old price with its bump is less than one unit of price above the new one. */
  lemma BumpsExact(old_: Tx, tx: Tx, priceBump: nat)
    ensures Bumps(old_, tx, priceBump) <==> old_.price < tx.price && old_.price * (100 + priceBump) < (tx.price + 1) * 100
  {
    var raised := old_.price * (100 + priceBump);
    assert raised / 100 <= tx.price <==> raised < (tx.price + 1) * 100;
  }

  predicate Accepts(l: ListView, tx: Tx, priceBump: nat) {
    tx.nonce in l.items ==> Bumps(l.items[tx.nonce], tx, priceBump)
  }

  function Added(l: ListView, tx: Tx): ListView {
    l.(items := l.items[tx.nonce := tx], costcap := Max(l.costcap, tx.Cost()), gascap := Max(l.gascap, tx.gas))
  }

  /** The test that a full scan applies to each transaction. */
  predicate Unpayable(tx: Tx, costLimit: int, gasLimit: nat, balance: Address -> int) {
    if tx.ThirdPartyPayer() then
      costLimit < tx.AmountCost() || gasLimit < tx.gas || balance(tx.payer) < tx.GasCost()
    else
      costLimit < tx.Cost() || gasLimit < tx.gas
  }

  function UnpayableTest(costLimit: int, gasLimit: nat, balance: Address -> int): Tx -> bool {
    tx => Unpayable(tx, costLimit, gasLimit, balance)
  }

  function AboveNonce(nonce: nat): Tx -> bool {
    (tx: Tx) => nonce < tx.nonce
  }

  predicate CapsWithin(l: ListView, costLimit: int, gasLimit: nat) {
    l.costcap <= costLimit && l.gascap <= gasLimit
  }

  datatype FilterResult = FilterResult(list: ListView, removed: Items, invalids: Items)

  function FullScan(l: ListView, costLimit: int, gasLimit: nat, balance: Address -> int): FilterResult {
    var kept := Filtered(l.items, UnpayableTest(costLimit, gasLimit, balance));
    var removed := Without(l.items, kept);
    var prefix := if l.strict && removed != map[] then Retired(kept, Lowest(removed.Keys) + 1) else kept;
    FilterResult(l.(items := prefix, costcap := costLimit, gascap := gasLimit), removed, Without(kept, prefix))
  }

  function Filter(l: ListView, costLimit: int, gasLimit: nat, balance: Address -> int): FilterResult {
    if CapsWithin(l, costLimit, gasLimit) then FilterResult(l, map[], map[])
    else FullScan(l, costLimit, gasLimit, balance)
  }

  /** The caps bound the gas, and what the sender must cover, of every transaction in the list. */
  ghost predicate CapsBound(l: ListView) {
    forall n :: n in l.items ==> l.items[n].gas <= l.gascap && l.items[n].SenderCost() <= l.costcap
  }

  lemma CapsBoundPart(l: ListView, part: Items)
    requires CapsBound(l) && forall n :: n in part ==> n in l.items && part[n] == l.items[n]
    ensures CapsBound(l.(items := part))
  {}

  lemma AddKeepsCaps(l: ListView, tx: Tx)
    requires CapsBound(l)
    ensures CapsBound(Added(l, tx))
  {}

  lemma FilterKeepsCaps(l: ListView, costLimit: int, gasLimit: nat, balance: Address -> int)
    requires CapsBound(l)
    ensures CapsBound(Filter(l, costLimit, gasLimit, balance).list)
  {}

  /** Every third-party payer in the list can afford the gas it pays for. */
  ghost predicate PayersCover(l: ListView, balance: Address -> int) {
    forall n :: n in l.items && l.items[n].ThirdPartyPayer() ==> l.items[n].GasCost() <= balance(l.items[n].payer)
  }

  /**
   The short circuit gives the contents that a full scan would give exactly when the caps exceed
   the limits (no short circuit is taken) or every third-party payer can afford its gas: the cached
   caps know the sender's side only.
   */
  lemma ShortCircuitExact(l: ListView, costLimit: int, gasLimit: nat, balance: Address -> int)
    requires CapsBound(l)
    ensures var f, scan := Filter(l, costLimit, gasLimit, balance), FullScan(l, costLimit, gasLimit, balance);
      && (f.removed == scan.removed <==>
          !CapsWithin(l, costLimit, gasLimit) || PayersCover(l, balance))
      && (f.removed == scan.removed ==> f.list.items == scan.list.items && f.invalids == scan.invalids)
  {
    if CapsWithin(l, costLimit, gasLimit) {
      var scan := FullScan(l, costLimit, gasLimit, balance);
      forall n | n in l.items
        ensures n in scan.removed <==> l.items[n].ThirdPartyPayer() && balance(l.items[n].payer) < l.items[n].GasCost()
      {
        assert l.items[n].SenderCost() <= l.costcap;
      }
      if scan.removed == map[] {
        assert scan.list.items == l.items;
      } else {
        assert Lowest(scan.removed.Keys) in scan.removed;
      }
    }
  }

  /** Without third-party payers the short circuit is always exact. */
  lemma ShortCircuitWithoutPayers(l: ListView, costLimit: int, gasLimit: nat, balance: Address -> int)
    requires CapsBound(l) && forall n :: n in l.items ==> !l.items[n].ThirdPartyPayer()
    ensures Filter(l, costLimit, gasLimit, balance).removed == FullScan(l, costLimit, gasLimit, balance).removed
    ensures forall n :: n in Filter(l, costLimit, gasLimit, balance).list.items ==>
              n in l.items && !Unpayable(l.items[n], costLimit, gasLimit, balance)
  {}

  /** The nonces are exactly those from lo up to, not including, hi. */
  ghost predicate Interval(m: Items, lo: nat, hi: nat) {
    lo <= hi && forall n :: n in m <==> lo <= n < hi
  }

  /** Filtering never loses a transaction: kept, removed and invalidated parts make up the list. */
  lemma FilterPartitions(l: ListView, costLimit: int, gasLimit: nat, balance: Address -> int)
    ensures var f := Filter(l, costLimit, gasLimit, balance);
      && f.list.strict == l.strict && (!l.strict ==> f.invalids == map[])
      && (forall n :: n in l.items ==> n in f.list.items || n in f.removed || n in f.invalids)
      && (forall n :: n in f.list.items ==> n in l.items && f.list.items[n] == l.items[n] && n !in f.removed && n !in f.invalids)
      && (forall n :: n in f.removed ==> n in l.items && f.removed[n] == l.items[n] && n !in f.invalids)
      && (forall n :: n in f.invalids ==> n in l.items && f.invalids[n] == l.items[n])
  {}

  /**
   Which part a transaction goes to: without the short circuit exactly the unpayable are removed, and a
   strict list invalidates exactly the payable ones above a removed one.
   */
  lemma FilterSorts(l: ListView, costLimit: int, gasLimit: nat, balance: Address -> int, n: nat)
    requires n in l.items
    ensures var f := Filter(l, costLimit, gasLimit, balance);
      && (n in f.removed <==> !CapsWithin(l, costLimit, gasLimit) && Unpayable(l.items[n], costLimit, gasLimit, balance))
      && (n in f.invalids <==> l.strict && n !in f.removed && exists k :: k in f.removed && k < n)
  {
    var f := Filter(l, costLimit, gasLimit, balance);
    if !CapsWithin(l, costLimit, gasLimit) && f.removed != map[] {
      assert Lowest(f.removed.Keys) in f.removed;
    }
  }

  /** Strict filtering of a gapless list leaves a prefix of it; what is invalidated lies above. */
  lemma StrictFilterLeavesPrefix(l: ListView, costLimit: int, gasLimit: nat, balance: Address -> int,
                                 lo: nat, hi: nat) returns (cut: nat)
    requires l.strict && Interval(l.items, lo, hi)
    ensures lo <= cut <= hi
    ensures var f := Filter(l, costLimit, gasLimit, balance);
      Interval(f.list.items, lo, cut) && forall n :: n in f.invalids ==> cut < n < hi
  {
    var f := Filter(l, costLimit, gasLimit, balance);
    cut := if f.removed == map[] then hi else Lowest(f.removed.Keys);
    forall n: nat
      ensures n in f.list.items <==> lo <= n < cut
    {
      if lo <= n < cut {
        assert n in l.items && n !in f.removed;
      }
    }
  }

  method LowestNonce(s: seq<Tx>) returns (lowest: nat)
    requires s != []
    ensures exists k :: 0 <= k < |s| && s[k].nonce == lowest
    ensures forall k :: 0 <= k < |s| ==> lowest <= s[k].nonce
  {
    lowest := s[0].nonce;
    for i := 1 to |s|
      invariant exists k :: 0 <= k < |s| && s[k].nonce == lowest
      invariant forall k :: 0 <= k < i ==> lowest <= s[k].nonce
    {
      if s[i].nonce < lowest { lowest := s[i].nonce; }
    }
  }

  class TxList {
    const strict: bool
    const txs: TxSortedMap
    var costcap: int
    var gascap: nat

    ghost predicate Valid()
      reads this, txs
    {
      txs.Valid() && CapsBound(View())
    }

    ghost function View(): ListView
      reads this, txs
    {
      ListView(strict, txs.items, costcap, gascap)
    }

    constructor (strict: bool)
      ensures Valid() && fresh(txs) && View() == EmptyList(strict)
    {
      this.strict := strict;
      txs := new TxSortedMap();
      costcap, gascap := 0, 0;
    }

    method Add(tx: Tx, priceBump: nat) returns (inserted: bool, replaced: Option<Tx>)
      requires Valid()
      modifies this, txs
      ensures Valid() && inserted == Accepts(old(View()), tx, priceBump)
      ensures View() == if inserted then Added(old(View()), tx) else old(View())
      ensures replaced == if inserted && tx.nonce in old(txs.items) then Some(old(txs.items)[tx.nonce]) else None
    {
      replaced := None;
      if tx.nonce in txs.items {
        var previous := txs.items[tx.nonce];
        var threshold := previous.price * (100 + priceBump) / 100;
        if tx.price <= previous.price || tx.price < threshold {
          return false, None;
        }
        replaced := Some(previous);
      }
      AddKeepsCaps(View(), tx);
      txs.Put(tx);
      if costcap < tx.Cost() { costcap := tx.Cost(); }
      if gascap < tx.gas { gascap := tx.gas; }
      inserted := true;
    }

    method Forward(threshold: nat) returns (removed: seq<Tx>)
      requires Valid()
      modifies txs
      ensures Valid() && View() == old(View()).(items := Forwarded(old(txs.items), threshold))
      ensures IsFlat(removed, Retired(old(txs.items), threshold))
    {
      removed := txs.Forward(threshold);
    }

    method FilterCosts(costLimit: int, gasLimit: nat, balance: Address -> int) returns (removed: seq<Tx>, invalids: seq<Tx>)
      requires Valid()
      modifies this, txs
      ensures Valid() && View() == Filter(old(View()), costLimit, gasLimit, balance).list
      ensures Elements(removed) == Txs(Filter(old(View()), costLimit, gasLimit, balance).removed)
      ensures Elements(invalids) == Txs(Filter(old(View()), costLimit, gasLimit, balance).invalids)
    {
      hide FullScan, CapsBound;
      removed, invalids := [], [];
      if costcap <= costLimit && gascap <= gasLimit { return; }
      ghost var before := View();
      FilterKeepsCaps(before, costLimit, gasLimit, balance);
      costcap, gascap := costLimit, gasLimit;
      removed, invalids := Scan(before, costLimit, gasLimit, balance);
    }

    /** The scan behind FilterCosts, and in a strict list the removal of everything after the first gap. */
    method Scan(ghost before: ListView, costLimit: int, gasLimit: nat, balance: Address -> int)
      returns (removed: seq<Tx>, invalids: seq<Tx>)
      requires txs.Valid() && txs.items == before.items && strict == before.strict
      modifies txs
      ensures txs.Valid()
      ensures var r := FullScan(before, costLimit, gasLimit, balance);
        && r.list == ListView(strict, txs.items, costLimit, gasLimit)
        && Elements(removed) == Txs(r.removed) && Elements(invalids) == Txs(r.invalids)
    {
      invalids := [];
      removed := txs.Filter(UnpayableTest(costLimit, gasLimit, balance));
      ghost var gone := Without(before.items, txs.items);
      assert removed == [] <==> gone == map[] by { EmptyTxs(gone); EmptyElements(removed); }
      if strict && removed != [] {
        var lowest := LowestNonce(removed);
        LowestOfTxs(removed, gone, lowest);
        invalids := DropAbove(lowest);
      } else {
        assert Without(txs.items, txs.items) == map[];
      }
    }

    method DropAbove(nonce: nat) returns (invalids: seq<Tx>)
      requires txs.Valid()
      modifies txs
      ensures txs.Valid() && txs.items == Retired(old(txs.items), nonce + 1)
      ensures Elements(invalids) == Txs(Without(old(txs.items), txs.items))
    {
      invalids := txs.Filter(AboveNonce(nonce));
      assert txs.items == Retired(old(txs.items), nonce + 1);
    }

    method Cap(limit: nat) returns (drops: seq<Tx>)
      requires Valid()
      modifies txs
      ensures Valid() && View() == old(View()).(items := Capped(old(txs.items), limit))
      ensures Elements(drops) == Txs(Without(old(txs.items), txs.items)) && |drops| == |old(txs.items)| - |txs.items|
    {
      drops := txs.Cap(limit);
    }

    method Remove(tx: Tx) returns (found: bool, invalids: seq<Tx>)
      requires Valid()
      modifies txs
      ensures Valid() && found == (tx.nonce in old(txs.items))
      ensures View() == old(View()).(items := Dropped(old(View()), tx.nonce))
      ensures Elements(invalids) == Txs(Without(old(txs.items) - {tx.nonce}, txs.items))
    {
      invalids := [];
      ghost var before := txs.items;
      found := txs.Remove(tx.nonce);
      if found && strict {
        invalids := DropAbove(tx.nonce);
        assert txs.items == Dropped(old(View()), tx.nonce);
      } else {
        assert txs.items == Dropped(old(View()), tx.nonce);
        assert Without(txs.items, txs.items) == map[];
      }
    }

    method Ready(start: nat) returns (ready: seq<Tx>)
      requires Valid()
      modifies txs
      ensures Valid() && View() == old(View()).(items := Without(old(txs.items), ReadyRun(old(txs.items), start)))
      ensures IsFlat(ready, ReadyRun(old(txs.items), start))
    {
      ready := txs.Ready(start);
    }
  }

  /** Remove by nonce; a strict list also loses everything above. */
  function Dropped(l: ListView, nonce: nat): Items {
    if nonce in l.items && l.strict then Retired(l.items, nonce) else l.items - {nonce}
  }

  lemma EmptyElements<T>(s: seq<T>)
    ensures Elements(s) == {} <==> s == []
  {
    if s != [] {
      assert s[0] in Elements(s);
    }
  }

  lemma EmptyTxs(m: Items)
    ensures Txs(m) == {} <==> m == map[]
  {
    if n :| n in m {
      assert m[n] in Txs(m);
    }
  }

  lemma LowestOfTxs(s: seq<Tx>, m: Items, lowest: nat)
    requires Keyed(m) && Elements(s) == Txs(m)
    requires exists k :: 0 <= k < |s| && s[k].nonce == lowest
    requires forall k :: 0 <= k < |s| ==> lowest <= s[k].nonce
    ensures m != map[] && lowest == Lowest(m.Keys)
  {
    var k :| 0 <= k < |s| && s[k].nonce == lowest;
    assert s[k] in Elements(s);
    var n := Lowest(m.Keys);
    assert m[n] in Txs(m);
    assert m[n] in Elements(s);
    var j :| 0 <= j < |s| && s[j] == m[n];
  }
}
