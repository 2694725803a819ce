/**
 The transaction pool as a value: what it means for the lookup, the pending lists and the queued
 lists to agree, what a gapless account is, and how single-account moves keep both.
 */
module PoolStates {
  import opened Transactions
  import opened NonceItems
  import opened SortedMaps
  import opened TxLists

  /** The chain state the pool works against. */
  datatype ChainState = ChainState(nonce: Address -> nat, balance: Address -> int)

  type Lists = map<Address, ListView>

  /** Always true: naming an account brings in what the pool-wide predicates say about it. */
  predicate At(a: Address) { true }

  function ItemsOf(m: Lists, a: Address): Items {
    if a in m then m[a].items else map[]
  }

  /** Lists kept under an address are never empty between operations, and their caps hold. */
  ghost predicate ListsOk(m: Lists, strict: bool) {
    forall a {:trigger At(a)} :: At(a) && a in m ==> m[a].strict == strict && m[a].items != map[] && CapsBound(m[a])
  }

  lemma ListsOkAdded(m: Lists, strict: bool, a: Address, l: ListView, tx: Tx)
    requires ListsOk(m, strict) && l == (if a in m then m[a] else EmptyList(strict))
    ensures ListsOk(m[a := Added(l, tx)], strict) && ItemsOf(m[a := Added(l, tx)], a) == ItemsOf(m, a)[tx.nonce := tx]
  {
    assert At(a);
    AddKeepsCaps(l, tx);
    assert tx.nonce in Added(l, tx).items;
  }

  /** Replaces an account's list by one with a part of its contents, or deletes it when nothing is left. */
  function Shrunk(m: Lists, a: Address, l: ListView): Lists {
    if l.items == map[] then m - {a} else m[a := l]
  }

  lemma ListsOkShrunk(m: Lists, strict: bool, a: Address, l: ListView)
    requires ListsOk(m, strict) && l.strict == strict && CapsBound(l)
    ensures ListsOk(Shrunk(m, a, l), strict) && ItemsOf(Shrunk(m, a, l), a) == l.items && SameElsewhere(m, Shrunk(m, a, l), a)
  {}

  /** One account: both lists are keyed by nonce, share no nonce, and hold exactly its pooled transactions. */
  ghost predicate AccountOk(p: Items, q: Items, all: set<Tx>, a: Address) {
    && (forall n :: n in p ==> p[n].nonce == n && p[n].sender == a)
    && (forall n :: n in q ==> q[n].nonce == n && q[n].sender == a)
    && (forall n :: n in p ==> n !in q)
    && (forall t: Tx :: t.sender == a ==> (t in all <==> Has(p, t) || Has(q, t)))
  }

  /** The lookup is exactly the disjoint union of all pending and all queued transactions. */
  ghost predicate Exact(pending: Lists, queue: Lists, all: set<Tx>) {
    forall a {:trigger At(a)} :: At(a) ==> AccountOk(ItemsOf(pending, a), ItemsOf(queue, a), all, a)
  }

  ghost predicate SameElsewhere(m: Lists, m': Lists, a: Address) {
    forall b {:trigger At(b)} :: At(b) && b != a ==> (b in m <==> b in m') && (b in m ==> m[b] == m'[b])
  }

  ghost predicate SameNonces(m: map<Address, nat>, m': map<Address, nat>, a: Address) {
    forall b {:trigger At(b)} :: At(b) && b != a ==> (b in m <==> b in m') && (b in m ==> m[b] == m'[b])
  }

  /** Transactions of one account only moved between, or out of, its two lists. */
  ghost predicate OnlyMoved(p: Items, q: Items, p': Items, q': Items) {
    && (forall n :: n in p' ==> n !in q' && ((n in p && p'[n] == p[n]) || (n in q && p'[n] == q[n])))
    && (forall n :: n in q' ==> (n in p && q'[n] == p[n]) || (n in q && q'[n] == q[n]))
  }

  lemma AccountFrame(p: Items, q: Items, all: set<Tx>, all': set<Tx>, a: Address)
    requires AccountOk(p, q, all, a)
    requires forall t: Tx :: t.sender == a ==> (t in all <==> t in all')
    ensures AccountOk(p, q, all', a)
  {}

  lemma AccountMoved(p: Items, q: Items, all: set<Tx>, p': Items, q': Items, all': set<Tx>, a: Address)
    requires AccountOk(p, q, all, a) && OnlyMoved(p, q, p', q')
    requires forall t: Tx :: t.sender == a ==> (t in all' <==> t in all && (t.nonce in p' || t.nonce in q'))
    ensures AccountOk(p', q', all', a)
  {
    forall t: Tx | t.sender == a
      ensures t in all' <==> Has(p', t) || Has(q', t)
    {
      assert t in all <==> Has(p, t) || Has(q, t);
    }
  }

  /** An account's transactions may move or leave, if the lookup forgets exactly those that leave. */
  lemma ExactAfterMove(pending: Lists, queue: Lists, all: set<Tx>, pending': Lists, queue': Lists, all': set<Tx>, a: Address)
    requires Exact(pending, queue, all)
    requires SameElsewhere(pending, pending', a) && SameElsewhere(queue, queue', a)
    requires OnlyMoved(ItemsOf(pending, a), ItemsOf(queue, a), ItemsOf(pending', a), ItemsOf(queue', a))
    requires forall t: Tx :: t.sender != a ==> (t in all' <==> t in all)
    requires forall t: Tx :: t.sender == a ==>
               (t in all' <==> t in all && (t.nonce in ItemsOf(pending', a) || t.nonce in ItemsOf(queue', a)))
    ensures Exact(pending', queue', all')
  {
    forall b | At(b)
      ensures AccountOk(ItemsOf(pending', b), ItemsOf(queue', b), all', b)
    {
      assert At(b);
      if b == a {
        AccountMoved(ItemsOf(pending, a), ItemsOf(queue, a), all, ItemsOf(pending', a), ItemsOf(queue', a), all', a);
      } else {
        AccountFrame(ItemsOf(pending, b), ItemsOf(queue, b), all, all', b);
      }
    }
  }

  lemma AccountPut(p: Items, q: Items, all: set<Tx>, p': Items, q': Items, all': set<Tx>, tx: Tx)
    requires AccountOk(p, q, all, tx.sender)
    requires || (tx.nonce in p && p' == p[tx.nonce := tx] && q' == q)
             || (tx.nonce !in p && p' == p && q' == q[tx.nonce := tx])
    requires forall t :: t in all' <==> t == tx || (t in all && !(t.sender == tx.sender && t.nonce == tx.nonce))
    ensures AccountOk(p', q', all', tx.sender)
  {}

  /** Storing a new transaction at its own slot, in place of whatever was there, in one of the lists. */
  lemma ExactAfterPut(pending: Lists, queue: Lists, all: set<Tx>, pending': Lists, queue': Lists, all': set<Tx>, tx: Tx)
    requires Exact(pending, queue, all) && tx !in all
    requires SameElsewhere(pending, pending', tx.sender) && SameElsewhere(queue, queue', tx.sender)
    requires var p, q, p', q' := ItemsOf(pending, tx.sender), ItemsOf(queue, tx.sender), ItemsOf(pending', tx.sender), ItemsOf(queue', tx.sender);
      || (tx.nonce in p && p' == p[tx.nonce := tx] && q' == q)
      || (tx.nonce !in p && p' == p && q' == q[tx.nonce := tx])
    requires forall t :: t in all' <==> t == tx || (t in all && !(t.sender == tx.sender && t.nonce == tx.nonce))
    ensures Exact(pending', queue', all')
  {
    hide AccountOk;
    forall b | At(b)
      ensures AccountOk(ItemsOf(pending', b), ItemsOf(queue', b), all', b)
    {
      assert At(b);
      if b == tx.sender {
        AccountPut(ItemsOf(pending, b), ItemsOf(queue, b), all, ItemsOf(pending', b), ItemsOf(queue', b), all', tx);
      } else {
        AccountFrame(ItemsOf(pending, b), ItemsOf(queue, b), all, all', b);
      }
    }
  }

  /** Pending runs without gap from the state nonce to the tracked nonce; the queue lies at or above it. */
  ghost predicate Gapless(p: Items, q: Items, stateNonce: nat, next: nat) {
    Interval(p, stateNonce, next) && forall n :: n in q ==> next <= n
  }

  /** The same, except that the queue may still hold nonces the chain has already used. */
  ghost predicate NearlyGapless(p: Items, q: Items, stateNonce: nat, next: nat) {
    Interval(p, stateNonce, next) && forall n :: n in q ==> next <= n || n < stateNonce
  }

  lemma GaplessIsNearly(p: Items, q: Items, stateNonce: nat, next: nat)
    ensures Gapless(p, q, stateNonce, next) ==> NearlyGapless(p, q, stateNonce, next)
  {}

  lemma EmptyQueueGapless(p: Items, stateNonce: nat, next: nat)
    ensures NearlyGapless(p, map[], stateNonce, next) ==> Gapless(p, map[], stateNonce, next)
  {}

  lemma {:induction false} RunEnd(q: Items, next: nat) returns (end: nat)
    ensures next <= end && end !in q && forall k :: next <= k < end ==> k in q
    decreases |q|
  {
    end := next;
    if next in q {
      end := RunEnd(q - {next}, next + 1);
      forall k | next <= k < end
        ensures k in q
      {
        assert k == next || k in q - {next};
      }
    }
  }

  /** What Ready takes from a queue at or above the tracked nonce: a run starting there, ended by a hole. */
  lemma ReadyIsRun(q: Items, next: nat) returns (end: nat)
    requires forall n :: n in q ==> next <= n
    ensures Interval(ReadyRun(q, next), next, end)
    ensures forall n :: n in q && n !in ReadyRun(q, next) ==> end < n
  {
    end := RunEnd(q, next);
    if next in q {
      assert Lowest(q.Keys) == next;
      assert forall n: nat :: InFirstRun(q, n) <==> next <= n < end;
    } else if q != map[] {
      assert next < Lowest(q.Keys);
    }
  }

  /** The number of transactions in all lists. */
  ghost function Total(m: Lists): nat {
    if m == map[] then 0 else
      var a :| a in m;
      |m[a].items| + Total(m - {a})
  }

  lemma TotalPicks(m: Lists) returns (x: Address)
    requires m != map[]
    ensures x in m && Total(m) == |m[x].items| + Total(m - {x})
  {
    x :| x in m && Total(m) == |m[x].items| + Total(m - {x});
  }

  lemma {:induction false} TotalSplit(m: Lists, a: Address)
    requires a in m
    ensures Total(m) == |m[a].items| + Total(m - {a})
    decreases |m|
  {
    hide Total;
    var x := TotalPicks(m);
    if x != a {
      TotalSplit(m - {x}, a);
      TotalSplit(m - {a}, x);
      assert m - {x} - {a} == m - {a} - {x};
    }
  }

  lemma TotalChange(m: Lists, m': Lists, a: Address)
    requires SameElsewhere(m, m', a)
    ensures Total(m') == Total(m) - |ItemsOf(m, a)| + |ItemsOf(m', a)|
  {
    TotalApart(m, a);
    TotalApart(m', a);
    forall b
      ensures b in m - {a} <==> b in m' - {a}
      ensures b in m - {a} ==> m[b] == m'[b]
    {
      assert At(b);
    }
    assert m - {a} == m' - {a};
  }

  lemma TotalApart(m: Lists, a: Address)
    ensures Total(m) == |ItemsOf(m, a)| + Total(m - {a})
  {
    if a in m { TotalSplit(m, a); } else { assert m - {a} == m; }
  }

  method Count(m: Lists) returns (total: nat)
    ensures total == Total(m)
  {
    total := 0;
    var left := m;
    while left != map[]
      invariant total + Total(left) == Total(m)
      decreases |left|
    {
      var a :| a in left;
      TotalSplit(left, a);
      total, left := total + |left[a].items|, left - {a};
    }
  }

  /** The count of the lookup is the number of pending plus the number of queued transactions. */
  lemma {:induction false} LookupCount(pending: Lists, queue: Lists, all: set<Tx>)
    requires Exact(pending, queue, all)
    ensures |all| == Total(pending) + Total(queue)
    decreases pending.Keys + queue.Keys
  {
    if pending.Keys + queue.Keys == {} {
      NothingPooled(pending, queue, all);
    } else {
      var a :| a in pending.Keys + queue.Keys;
      var p, q := ItemsOf(pending, a), ItemsOf(queue, a);
      var rest := all - Txs(p) - Txs(q);
      assert At(a);
      AccountCount(p, q, all, a);
      TotalChange(pending, pending - {a}, a);
      TotalChange(queue, queue - {a}, a);
      ForgetAccount(pending, queue, all, a);
      LookupCount(pending - {a}, queue - {a}, rest);
    }
  }

  lemma NothingPooled(pending: Lists, queue: Lists, all: set<Tx>)
    requires Exact(pending, queue, all) && pending == map[] && queue == map[]
    ensures all == {}
  {
    forall t
      ensures t !in all
    {
      assert At(t.sender);
    }
  }

  lemma ForgetAccount(pending: Lists, queue: Lists, all: set<Tx>, a: Address)
    requires Exact(pending, queue, all)
    ensures Exact(pending - {a}, queue - {a}, all - Txs(ItemsOf(pending, a)) - Txs(ItemsOf(queue, a)))
  {
    var p, q := ItemsOf(pending, a), ItemsOf(queue, a);
    assert At(a);
    var rest := all - Txs(p) - Txs(q);
    forall t
      ensures t in rest <==> t in all && t.sender != a
    {
      TxsHas(p, t);
      TxsHas(q, t);
    }
    ExactAfterMove(pending, queue, all, pending - {a}, queue - {a}, rest, a);
  }

  lemma AccountCount(p: Items, q: Items, all: set<Tx>, a: Address)
    requires AccountOk(p, q, all, a)
    ensures Txs(p) <= all && Txs(q) <= all
    ensures |all - Txs(p) - Txs(q)| == |all| - |p| - |q|
  {
    TxsSize(p);
    TxsSize(q);
    var P, Q := Txs(p), Txs(q);
    forall t
      ensures t in P ==> t in all && t !in Q
      ensures t in Q ==> t in all
    {
      TxsHas(p, t);
      TxsHas(q, t);
    }
    PartsSize(P, Q, all);
  }

  lemma PartsSize<T>(P: set<T>, Q: set<T>, all: set<T>)
    requires P !! Q && P <= all && Q <= all
    ensures |all - P - Q| == |all| - |P| - |Q|
  {}

  lemma {:induction false} TxsSize(m: Items)
    requires Keyed(m)
    ensures |Txs(m)| == |m|
    decreases |m|
  {
    if m != map[] {
      var n :| n in m;
      TxsSize(m - {n});
      TxsWithout(m, n);
    }
  }

  lemma TxsWithout(m: Items, n: nat)
    requires Keyed(m) && n in m
    ensures Txs(m - {n}) == Txs(m) - {m[n]} && m[n] in Txs(m)
  {
    forall t
      ensures t in Txs(m - {n}) <==> t in Txs(m) && t != m[n]
    {
      TxsHas(m, t);
      TxsHas(m - {n}, t);
    }
    TxsHas(m, m[n]);
  }

  /** What a strict list loses besides the transaction removed from it. */
  function Above(p: Items, nonce: nat): Items {
    map n | n in p && nonce < n :: p[n]
  }

  /** Removing by nonce from pending takes out the very transaction meant, and only moves the rest. */
  lemma RemoveByNoncePending(p: Items, q: Items, all: set<Tx>, tx: Tx)
    requires AccountOk(p, q, all, tx.sender) && tx in all && tx.nonce in p
    ensures p[tx.nonce] == tx
    ensures var p', q' := Retired(p, tx.nonce), q + Above(p, tx.nonce);
      && OnlyMoved(p, q, p', q')
      && forall t: Tx :: t.sender == tx.sender ==> (t in all - {tx} <==> t in all && (t.nonce in p' || t.nonce in q'))
  {}

  lemma RemoveByNonceQueued(p: Items, q: Items, all: set<Tx>, tx: Tx)
    requires AccountOk(p, q, all, tx.sender) && tx in all && tx.nonce !in p
    ensures tx.nonce in q && q[tx.nonce] == tx
    ensures OnlyMoved(p, q, p, q - {tx.nonce})
    ensures forall t: Tx :: t.sender == tx.sender ==>
              (t in all - {tx} <==> t in all && (t.nonce in p || t.nonce in q - {tx.nonce}))
  {}

  lemma ExactAfterCut(pending: Lists, queue: Lists, all: set<Tx>, pending': Lists, queue': Lists, tx: Tx)
    requires Exact(pending, queue, all + {tx}) && tx !in all
    requires SameElsewhere(pending, pending', tx.sender) && SameElsewhere(queue, queue', tx.sender)
    requires var p, q := ItemsOf(pending, tx.sender), ItemsOf(queue, tx.sender);
      if tx.nonce in p then
        ItemsOf(pending', tx.sender) == Retired(p, tx.nonce) && ItemsOf(queue', tx.sender) == q + Above(p, tx.nonce)
      else
        ItemsOf(pending', tx.sender) == p && ItemsOf(queue', tx.sender) == q - {tx.nonce}
    ensures Exact(pending', queue', all)
  {
    var p, q := ItemsOf(pending, tx.sender), ItemsOf(queue, tx.sender);
    assert At(tx.sender);
    assert (all + {tx}) - {tx} == all;
    if tx.nonce in p {
      RemoveByNoncePending(p, q, all + {tx}, tx);
    } else {
      RemoveByNonceQueued(p, q, all + {tx}, tx);
    }
    ExactAfterMove(pending, queue, all + {tx}, pending', queue', all, tx.sender);
  }

  /** What a cut demotes is still pooled and finds its nonces free in the queue. */
  lemma CutIsFree(pending: Lists, queue: Lists, all: set<Tx>, tx: Tx, n: nat)
    requires Exact(pending, queue, all + {tx}) && tx.nonce in ItemsOf(pending, tx.sender) && n in Above(ItemsOf(pending, tx.sender), tx.nonce)
    ensures var t := ItemsOf(pending, tx.sender)[n];
      t.nonce == n && t.sender == tx.sender && t in all && n !in ItemsOf(queue, tx.sender)
  {
    assert At(tx.sender);
    var t := ItemsOf(pending, tx.sender)[n];
    assert Has(ItemsOf(pending, tx.sender), t);
    assert t in all + {tx} && t != tx;
  }

  /** A gapless account stays gapless when its run is cut at a nonce and the rest is queued. */
  lemma GaplessCut(p: Items, q: Items, stateNonce: nat, next: nat, nonce: nat)
    requires Gapless(p, q, stateNonce, next) && nonce in p
    ensures nonce < next && Gapless(Retired(p, nonce), q + Above(p, nonce), stateNonce, nonce)
  {}

  lemma HighestOnly(m: Items) returns (hi: nat)
    requires m != map[]
    ensures IsGreatest(hi, m.Keys) && Capped(m, |m| - 1) == m - {hi} && Without(m, Capped(m, |m| - 1)) == map[hi := m[hi]]
    ensures |Capped(m, |m| - 1)| == |m| - 1
  {
    hi := HasGreatest(m.Keys);
    assert (m - {hi}).Keys == m.Keys - {hi};
    CapTakesHighest(m, |m| - 1, hi);
    CapNothing(m - {hi}, |m| - 1);
  }

  /** Dropping the end of a pending list, and forgetting it, keeps the pool exact. */
  lemma ExactAfterTrim(pending: Lists, queue: Lists, all: set<Tx>, pending': Lists, a: Address, hi: nat)
    requires Exact(pending, queue, all) && SameElsewhere(pending, pending', a) && hi in ItemsOf(pending, a)
    requires ItemsOf(pending', a) == ItemsOf(pending, a) - {hi}
    ensures var tx := ItemsOf(pending, a)[hi];
      tx in all && tx.nonce == hi && Exact(pending', queue, all - {tx})
  {
    assert At(a);
    var p, tx := ItemsOf(pending, a), ItemsOf(pending, a)[hi];
    assert Has(p, tx);
    ExactAfterMove(pending, queue, all, pending', queue, all - {tx}, a);
  }

  lemma GaplessTrim(p: Items, q: Items, stateNonce: nat, next: nat, hi: nat)
    requires Gapless(p, q, stateNonce, next) && IsGreatest(hi, p.Keys)
    ensures hi < next && Gapless(p - {hi}, q, stateNonce, hi)
  {}

  /** m is the given part of whole. */
  ghost predicate Part(m: Items, whole: Items) {
    forall n :: n in m ==> n in whole && m[n] == whole[n]
  }

  lemma PartTxs(m: Items, p: Items, q: Items, all: set<Tx>, a: Address)
    requires AccountOk(p, q, all, a) && (Part(m, q) || Part(m, p))
    ensures Keyed(m) && Txs(m) <= all && forall t :: t in Txs(m) <==> Has(m, t)
    ensures forall t :: t in Txs(m) ==> t.sender == a
  {}

  /** The queue falls into three dropped parts, a promoted run and what is kept. */
  ghost predicate QueueParts(q: Items, x: Items, y: Items, z: Items, run: Items, kept: Items) {
    && Part(x, q) && Part(y, q) && Part(z, q) && Part(run, q) && Part(kept, q)
    && (forall n :: n in q ==> n in x || n in y || n in z || n in run || n in kept)
    && (forall n :: n in x ==> n !in y && n !in z && n !in run && n !in kept)
    && (forall n :: n in y ==> n !in z && n !in run && n !in kept)
    && (forall n :: n in z ==> n !in run && n !in kept)
    && (forall n :: n in run ==> n !in kept)
  }

  /** Dropping three parts of a queue and promoting a fourth leaves an account that agrees with the lookup. */
  lemma PromotedAccount(p: Items, q: Items, all: set<Tx>, a: Address, x: Items, y: Items, z: Items, run: Items, kept: Items)
    requires AccountOk(p, q, all, a) && QueueParts(q, x, y, z, run, kept)
    ensures Txs(x) <= all && Txs(y) <= all - Txs(x) && Txs(z) <= all - Txs(x) - Txs(y)
    ensures OnlyMoved(p, q, p + run, kept)
    ensures var all' := all - Txs(x) - Txs(y) - Txs(z);
      && (forall t: Tx :: t.sender != a ==> (t in all' <==> t in all))
      && (forall t: Tx :: t.sender == a ==> (t in all' <==> t in all && (t.nonce in p + run || t.nonce in kept)))
  {
    PartTxs(x, p, q, all, a);
    PartTxs(y, p, q, all, a);
    PartTxs(z, p, q, all, a);
    PartsMoved(p, q, all, a, x, y, z, run, kept);
    forall t: Tx
      ensures var all' := all - Txs(x) - Txs(y) - Txs(z);
        t in all' <==> t in all && (t.sender == a ==> t.nonce in p + run || t.nonce in kept)
    {
      StillPooled(p, q, all, a, x, y, z, run, kept, t);
    }
    hide *;
  }

  lemma StillPooled(p: Items, q: Items, all: set<Tx>, a: Address, x: Items, y: Items, z: Items, run: Items, kept: Items, t: Tx)
    requires AccountOk(p, q, all, a) && QueueParts(q, x, y, z, run, kept)
    ensures t in all - Txs(x) - Txs(y) - Txs(z) <==> t in all && (t.sender == a ==> t.nonce in p + run || t.nonce in kept)
  {}

  lemma PartsMoved(p: Items, q: Items, all: set<Tx>, a: Address, x: Items, y: Items, z: Items, run: Items, kept: Items)
    requires AccountOk(p, q, all, a) && QueueParts(q, x, y, z, run, kept)
    ensures OnlyMoved(p, q, p + run, kept)
  {}

  /** The whole-pool form: one account's queue is partly dropped, partly promoted, partly kept. */
  lemma ExactAfterPromote(pending: Lists, queue: Lists, all: set<Tx>, pending': Lists, queue': Lists, a: Address,
                          x: Items, y: Items, z: Items, run: Items, kept: Items)
    requires Exact(pending, queue, all)
    requires SameElsewhere(pending, pending', a) && SameElsewhere(queue, queue', a)
    requires QueueParts(ItemsOf(queue, a), x, y, z, run, kept)
    requires ItemsOf(pending', a) == ItemsOf(pending, a) + run && ItemsOf(queue', a) == kept
    ensures Exact(pending', queue', all - Txs(x) - Txs(y) - Txs(z))
  {
    assert At(a);
    PromotedAccount(ItemsOf(pending, a), ItemsOf(queue, a), all, a, x, y, z, run, kept);
    ExactAfterMove(pending, queue, all, pending', queue', all - Txs(x) - Txs(y) - Txs(z), a);
  }

  /** What promotion works on is pooled, and the run's nonces are not pending. */
  lemma PartsPooled(pending: Lists, queue: Lists, all: set<Tx>, a: Address, x: Items, y: Items, z: Items, run: Items, kept: Items)
    requires Exact(pending, queue, all) && QueueParts(ItemsOf(queue, a), x, y, z, run, kept)
    ensures Txs(x) <= all && Txs(y) <= all - Txs(x) && Txs(z) <= all - Txs(x) - Txs(y)
    ensures Keyed(run) && forall n :: n in run ==> run[n] in all - Txs(x) - Txs(y) && n !in ItemsOf(pending, a)
  {
    assert At(a);
    var p, q := ItemsOf(pending, a), ItemsOf(queue, a);
    PromotedAccount(p, q, all, a, x, y, z, run, kept);
    PartTxs(x, p, q, all, a);
    PartTxs(y, p, q, all, a);
    forall n | n in run
      ensures run[n] in all
    {
      assert Has(q, run[n]);
    }
  }

  /** What one promotion pass makes of a queue: stale, unpayable and excess transactions, a run, and the rest. */
  datatype Promotion = Promotion(stale: Items, unpayable: Items, run: Items, excess: Items, rest: ListView)

  function Promote(list: ListView, chain: ChainState, a: Address, maxGas: nat, next: nat, limit: Option<nat>): Promotion {
    var f := Filter(list.(items := Forwarded(list.items, chain.nonce(a))), chain.balance(a), maxGas, chain.balance);
    var run := ReadyRun(f.list.items, next);
    var waiting := Without(f.list.items, run);
    var kept := if limit.Some? then Capped(waiting, limit.value) else waiting;
    Promotion(Retired(list.items, chain.nonce(a)), f.removed, run, Without(waiting, kept), f.list.(items := kept))
  }

  lemma PromotionParts(list: ListView, chain: ChainState, a: Address, maxGas: nat, next: nat, limit: Option<nat>)
    requires !list.strict && CapsBound(list)
    ensures var plan := Promote(list, chain, a, maxGas, next, limit);
      && QueueParts(list.items, plan.stale, plan.unpayable, plan.excess, plan.run, plan.rest.items)
      && !plan.rest.strict && CapsBound(plan.rest)
      && (limit.Some? ==> |plan.rest.items| <= limit.value)
  {
    hide Filter, CapsBound, Capped, ReadyRun, QueueParts;
    var current := list.(items := Forwarded(list.items, chain.nonce(a)));
    var f := Filter(current, chain.balance(a), maxGas, chain.balance);
    var run := ReadyRun(f.list.items, next);
    var waiting := Without(f.list.items, run);
    var kept := if limit.Some? then Capped(waiting, limit.value) else waiting;
    FilterPartitions(current, chain.balance(a), maxGas, chain.balance);
    CapsBoundPart(list, current.items);
    FilterKeepsCaps(current, chain.balance(a), maxGas, chain.balance);
    CappedPart(waiting, if limit.Some? then limit.value else 0);
    ReadyPart(f.list.items, next);
    CapsBoundPart(f.list, kept);
    ComposeParts(list.items, chain.nonce(a), f.removed, f.list.items, run, kept);
  }

  /** The scan for unpayable transactions is skipped. */
  predicate Skipped(list: ListView, chain: ChainState, a: Address, maxGas: nat) {
    CapsWithin(list.(items := Forwarded(list.items, chain.nonce(a))), chain.balance(a), maxGas)
  }

  /**
   Why promotion drops a transaction: its nonce is used, or it is unpayable, or there is a limit, the
   queue is full after the promotion, and all that stays has lower nonces.
   */
  lemma PromotionDrops(list: ListView, chain: ChainState, a: Address, maxGas: nat, next: nat, limit: Option<nat>, n: nat)
    requires !list.strict && n in list.items
    ensures var plan := Promote(list, chain, a, maxGas, next, limit);
      && (n in plan.stale <==> n < chain.nonce(a))
      && (n in plan.unpayable <==>
           chain.nonce(a) <= n && !Skipped(list, chain, a, maxGas) && Unpayable(list.items[n], chain.balance(a), maxGas, chain.balance))
      && (n in plan.excess ==> limit.Some? && |plan.rest.items| == limit.value && forall k :: k in plan.rest.items ==> k < n)
  {
    hide Filter, ReadyRun, Capped;
    var current := list.(items := Forwarded(list.items, chain.nonce(a)));
    var f := Filter(current, chain.balance(a), maxGas, chain.balance);
    FilterPartitions(current, chain.balance(a), maxGas, chain.balance);
    if chain.nonce(a) <= n { FilterSorts(current, chain.balance(a), maxGas, chain.balance, n); }
    var waiting := Without(f.list.items, ReadyRun(f.list.items, next));
    if limit.Some? && n in waiting && n !in Capped(waiting, limit.value) { CapKeepsLowest(waiting, limit.value, n); }
  }

  /** A nonce that a cap takes lies above all that it keeps, and it keeps as many as it may. */
  lemma CapKeepsLowest(m: Items, limit: nat, n: nat)
    requires n in m && n !in Capped(m, limit)
    ensures |Capped(m, limit)| == limit && forall k :: k in Capped(m, limit) ==> k < n
  {
    if |m| <= limit { CapNothing(m, limit); }
    CappedSize(m, limit);
    forall k | k in Capped(m, limit)
      ensures k < n
    {
      if n <= k {
        assert Below(m.Keys, n) <= Below(m.Keys, k);
        SubsetSize(Below(m.Keys, n), Below(m.Keys, k));
      }
    }
  }

  /**
   What promotion takes, of any queue: a gapless run that starts no later than the tracked nonce, after
   which the next nonce is not there; or nothing, if all that is left lies above the tracked nonce.
   */
  lemma PromotionExact(list: ListView, chain: ChainState, a: Address, maxGas: nat, next: nat, limit: Option<nat>)
    returns (lo: nat, end: nat)
    ensures var plan := Promote(list, chain, a, maxGas, next, limit);
      && Interval(plan.run, lo, end)
      && (if plan.run == map[] then forall n :: n in plan.rest.items || n in plan.excess ==> next < n
          else lo <= next && forall n :: n in plan.rest.items || n in plan.excess ==> end < n)
  {
    hide Filter, Capped;
    var current := list.(items := Forwarded(list.items, chain.nonce(a)));
    var f := Filter(current, chain.balance(a), maxGas, chain.balance);
    var waiting := Without(f.list.items, ReadyRun(f.list.items, next));
    if limit.Some? { CappedPart(waiting, limit.value); }
    lo, end := FirstRunEnds(f.list.items, next);
  }

  lemma FirstRunEnds(m: Items, start: nat) returns (lo: nat, end: nat)
    ensures var run := ReadyRun(m, start);
      && Interval(run, lo, end)
      && (if run == map[] then forall n :: n in m ==> start < n else lo <= start && forall n :: n in m && n !in run ==> end < n)
  {
    lo, end := 0, 0;
    if m != map[] {
      var first := Lowest(m.Keys);
      if first <= start {
        lo := first;
        end := RunEnd(m, lo);
        assert forall n: nat :: InFirstRun(m, n) <==> lo <= n < end;
        assert lo in ReadyRun(m, start);
      }
    }
  }

  lemma ReadyPart(m: Items, next: nat)
    ensures Part(ReadyRun(m, next), m)
  {}

  /** Forwarding, filtering, taking a run and capping split a queue into disjoint parts. */
  lemma ComposeParts(q: Items, stateNonce: nat, removed: Items, usable: Items, run: Items, kept: Items)
    requires Part(removed, Forwarded(q, stateNonce)) && Part(usable, Forwarded(q, stateNonce))
    requires forall n :: n in Forwarded(q, stateNonce) ==> n in usable || n in removed
    requires forall n :: n in usable ==> n !in removed
    requires Part(run, usable) && Part(kept, Without(usable, run))
    ensures QueueParts(q, Retired(q, stateNonce), removed, Without(Without(usable, run), kept), run, kept)
  {}

  lemma CappedPart(m: Items, limit: nat)
    ensures Part(Capped(m, limit), m) && |Capped(m, limit)| <= limit
  {
    CappedSize(m, limit);
  }

  /** Promotion turns a nearly gapless account into a gapless one, tracked up to the end of the run. */
  lemma PromotionGapless(p: Items, list: ListView, chain: ChainState, a: Address, maxGas: nat, next: nat, limit: Option<nat>)
    returns (end: nat)
    requires !list.strict && NearlyGapless(p, list.items, chain.nonce(a), next)
    ensures var plan := Promote(list, chain, a, maxGas, next, limit);
      && Interval(plan.run, next, end) && (plan.run == map[] <==> next == end) && next <= end
      && Gapless(p + plan.run, plan.rest.items, chain.nonce(a), end) && end !in plan.rest.items
  {
    hide Filter, ReadyRun, Capped;
    var current := list.(items := Forwarded(list.items, chain.nonce(a)));
    var f := Filter(current, chain.balance(a), maxGas, chain.balance);
    FilterPartitions(current, chain.balance(a), maxGas, chain.balance);
    assert Part(f.list.items, current.items);
    var run := ReadyRun(f.list.items, next);
    var waiting := Without(f.list.items, run);
    if limit.Some? { CappedPart(waiting, limit.value); }
    end := ReadyIsRun(f.list.items, next);
    RunExtends(p, run, Promote(list, chain, a, maxGas, next, limit).rest.items, chain.nonce(a), next, end);
  }

  lemma RunExtends(p: Items, run: Items, rest: Items, stateNonce: nat, next: nat, end: nat)
    requires Interval(p, stateNonce, next) && Interval(run, next, end) && next <= end && forall n :: n in rest ==> end < n
    ensures Gapless(p + run, rest, stateNonce, end) && (run == map[] <==> next == end)
  {
    if next < end { assert next in run; }
  }

  /** What a head change makes of a pending list: used up, unpayable and postponed transactions, and the rest. */
  datatype Demotion = Demotion(stale: Items, unpayable: Items, postponed: Items, rest: ListView)

  function Demote(list: ListView, chain: ChainState, a: Address, maxGas: nat): Demotion {
    var f := Filter(list.(items := Forwarded(list.items, chain.nonce(a))), chain.balance(a), maxGas, chain.balance);
    var gapInFront := f.list.items != map[] && chain.nonce(a) !in f.list.items;
    Demotion(Retired(list.items, chain.nonce(a)), f.removed,
             if gapInFront then f.invalids + f.list.items else f.invalids,
             if gapInFront then f.list.(items := map[]) else f.list)
  }

  /**
   Why demotion drops a transaction: its nonce is used or it is unpayable. Every other one stays pending
   or is queued again.
   */
  lemma DemotionDrops(list: ListView, chain: ChainState, a: Address, maxGas: nat, n: nat)
    requires n in list.items
    ensures var plan := Demote(list, chain, a, maxGas);
      && (n in plan.stale <==> n < chain.nonce(a))
      && (n in plan.unpayable <==>
           chain.nonce(a) <= n && !Skipped(list, chain, a, maxGas) && Unpayable(list.items[n], chain.balance(a), maxGas, chain.balance))
      && (n in plan.postponed || n in plan.rest.items <==> n !in plan.stale && n !in plan.unpayable)
  {
    hide Filter;
    var current := list.(items := Forwarded(list.items, chain.nonce(a)));
    FilterPartitions(current, chain.balance(a), maxGas, chain.balance);
    if chain.nonce(a) <= n { FilterSorts(current, chain.balance(a), maxGas, chain.balance, n); }
  }

  lemma DemotionCaps(list: ListView, chain: ChainState, a: Address, maxGas: nat)
    requires CapsBound(list)
    ensures var plan := Demote(list, chain, a, maxGas); plan.rest.strict == list.strict && CapsBound(plan.rest)
  {}

  /** Demotion splits a list: every transaction ends in exactly one of the plan's parts. */
  lemma DemotionParts(list: ListView, chain: ChainState, a: Address, maxGas: nat)
    ensures var plan := Demote(list, chain, a, maxGas);
      QueueParts(list.items, plan.stale, plan.unpayable, map[], plan.postponed, plan.rest.items)
  {
    hide Filter, QueueParts, Forwarded, Retired;
    var current := list.(items := Forwarded(list.items, chain.nonce(a)));
    var f := Filter(current, chain.balance(a), maxGas, chain.balance);
    FilterPartitions(current, chain.balance(a), maxGas, chain.balance);
    ForwardedParts(list.items, chain.nonce(a), f.removed, f.invalids, f.list.items);
    MergedParts(list.items, Retired(list.items, chain.nonce(a)), f.removed, f.invalids, f.list.items);
  }

  /** A partition of what is at or above a nonce, together with what is below it, partitions the list. */
  lemma ForwardedParts(m: Items, nonce: nat, removed: Items, invalids: Items, kept: Items)
    requires var current := Forwarded(m, nonce);
      && (forall n :: n in current ==> n in kept || n in removed || n in invalids)
      && (forall n :: n in kept ==> n in current && kept[n] == current[n] && n !in removed && n !in invalids)
      && (forall n :: n in removed ==> n in current && removed[n] == current[n] && n !in invalids)
      && (forall n :: n in invalids ==> n in current && invalids[n] == current[n])
    ensures QueueParts(m, Retired(m, nonce), removed, map[], invalids, kept)
  {}

  lemma MergedParts(m: Items, x: Items, y: Items, run: Items, kept: Items)
    requires QueueParts(m, x, y, map[], run, kept)
    ensures QueueParts(m, x, y, map[], run + kept, map[])
  {}

  /** Pending lists lose parts or send them to the queue; the lookup forgets exactly the lost ones. */
  lemma DemotedAccount(p: Items, q: Items, all: set<Tx>, a: Address, x: Items, y: Items, postponed: Items, rest: Items)
    requires AccountOk(p, q, all, a) && QueueParts(p, x, y, map[], postponed, rest)
    ensures Txs(x) <= all && Txs(y) <= all - Txs(x)
    ensures forall n :: n in postponed ==> postponed[n].nonce == n && postponed[n].sender == a
                                           && postponed[n] in all - Txs(x) - Txs(y) && n !in q
    ensures OnlyMoved(p, q, rest, q + postponed)
    ensures var all' := all - Txs(x) - Txs(y);
      && (forall t: Tx :: t.sender != a ==> (t in all' <==> t in all))
      && (forall t: Tx :: t.sender == a ==> (t in all' <==> t in all && (t.nonce in rest || t.nonce in q + postponed)))
  {
    PartTxs(x, p, q, all, a);
    PartTxs(y, p, q, all, a);
    forall n | n in postponed
      ensures postponed[n] in all
    {
      assert Has(p, postponed[n]);
    }
  }

  lemma ExactAfterDemote(pending: Lists, queue: Lists, all: set<Tx>, pending': Lists, queue': Lists, a: Address,
                         x: Items, y: Items, postponed: Items, rest: Items)
    requires Exact(pending, queue, all) && QueueParts(ItemsOf(pending, a), x, y, map[], postponed, rest)
    requires SameElsewhere(pending, pending', a) && SameElsewhere(queue, queue', a)
    requires ItemsOf(pending', a) == rest && ItemsOf(queue', a) == ItemsOf(queue, a) + postponed
    ensures Exact(pending', queue', all - Txs(x) - Txs(y))
  {
    assert At(a);
    DemotedAccount(ItemsOf(pending, a), ItemsOf(queue, a), all, a, x, y, postponed, rest);
    ExactAfterMove(pending, queue, all, pending', queue', all - Txs(x) - Txs(y), a);
  }

  lemma DemotionPooled(pending: Lists, queue: Lists, all: set<Tx>, a: Address, x: Items, y: Items, postponed: Items, rest: Items)
    requires Exact(pending, queue, all) && QueueParts(ItemsOf(pending, a), x, y, map[], postponed, rest)
    ensures Txs(x) <= all && Txs(y) <= all - Txs(x)
    ensures forall n :: n in postponed ==> postponed[n].nonce == n && postponed[n].sender == a
                                           && postponed[n] in all - Txs(x) - Txs(y) && n !in ItemsOf(queue, a)
  {
    assert At(a);
    DemotedAccount(ItemsOf(pending, a), ItemsOf(queue, a), all, a, x, y, postponed, rest);
  }

  /** Pending is some gapless run and the queue lies above it, wherever the chain's nonce is. */
  ghost predicate Ran(p: Items, q: Items) {
    exists lo: nat, hi: nat :: Interval(p, lo, hi) && (p == map[] || forall n :: n in q ==> hi <= n)
  }

  /** Pending is empty, or a run from the chain's nonce with the queue above it. */
  ghost predicate Settled(p: Items, q: Items, stateNonce: nat) {
    p == map[] || exists hi: nat :: Interval(p, stateNonce, hi) && forall n :: n in q ==> hi <= n
  }

  /** Demotion realigns a run with the chain's nonce, in whichever direction the chain moved. */
  lemma DemotionSettles(q: Items, list: ListView, chain: ChainState, a: Address, maxGas: nat)
    requires list.strict && Ran(list.items, q)
    ensures var plan := Demote(list, chain, a, maxGas); Settled(plan.rest.items, q + plan.postponed, chain.nonce(a))
  {
    var lo: nat, hi: nat :| Interval(list.items, lo, hi) && (list.items == map[] || forall n :: n in q ==> hi <= n);
    var st := chain.nonce(a);
    var current := list.(items := Forwarded(list.items, st));
    if lo < hi && st < hi {
      var from := if lo < st then st else lo;
      assert Interval(current.items, from, hi);
      var cut := StrictFilterLeavesPrefix(current, chain.balance(a), maxGas, chain.balance, from, hi);
      var plan := Demote(list, chain, a, maxGas);
      if plan.rest.items != map[] {
        assert lo in list.items;
        assert Interval(plan.rest.items, st, cut);
      }
    } else {
      assert current.items == map[];
    }
  }

  lemma SettledIsNearlyGapless(p: Items, q: Items, stateNonce: nat, hi: nat)
    requires Settled(p, q, stateNonce) && (p != map[] ==> hi - 1 in p && forall n :: n in p ==> n < hi)
    ensures NearlyGapless(p, q, stateNonce, if p == map[] then stateNonce else hi)
  {}

  /**
   What demotion lets stand of a strict list before it looks at the front: everything from the chain's
   nonce up to the first unpayable transaction, or simply everything when the caps allow the scan to be
   skipped.
   */
  ghost function Standing(list: ListView, chain: ChainState, a: Address, maxGas: nat): Items {
    var current := list.(items := Forwarded(list.items, chain.nonce(a)));
    if CapsWithin(current, chain.balance(a), maxGas) then current.items else PayablePrefix(current.items, chain, a, maxGas)
  }

  ghost function PayablePrefix(m: Items, chain: ChainState, a: Address, maxGas: nat): Items {
    map n | n in m && PayableTo(m, chain, a, maxGas, n) :: m[n]
  }

  ghost predicate PayableTo(m: Items, chain: ChainState, a: Address, maxGas: nat, n: nat) {
    forall k :: k in m && k <= n ==> !Unpayable(m[k], chain.balance(a), maxGas, chain.balance)
  }

  lemma ScanLeavesPrefix(list: ListView, chain: ChainState, a: Address, maxGas: nat)
    requires list.strict
    ensures FullScan(list, chain.balance(a), maxGas, chain.balance).list.items == PayablePrefix(list.items, chain, a, maxGas)
  {
    var test := UnpayableTest(chain.balance(a), maxGas, chain.balance);
    var kept := Filtered(list.items, test);
    var removed := Without(list.items, kept);
    var prefix := FullScan(list, chain.balance(a), maxGas, chain.balance).list.items;
    if removed != map[] {
      var lowest := Lowest(removed.Keys);
      forall n | n in list.items
        ensures n in prefix <==> PayableTo(list.items, chain, a, maxGas, n)
      {
        if n < lowest {
          forall k | k in list.items && k <= n
            ensures !Unpayable(list.items[k], chain.balance(a), maxGas, chain.balance)
          {
            assert k !in removed;
          }
        } else {
          assert lowest in list.items && Unpayable(list.items[lowest], chain.balance(a), maxGas, chain.balance);
        }
      }
    } else {
      forall n | n in list.items
        ensures n in kept
      {
        assert n !in removed;
      }
    }
  }

  /**
   Demotion looks for a gap in front of the list only: what stands all stays if its first is there,
   whatever is missing between its transactions, and all leaves if it is not.
   */
  lemma OnlyFrontChecked(list: ListView, chain: ChainState, a: Address, maxGas: nat)
    requires list.strict
    ensures var standing := Standing(list, chain, a, maxGas);
      Demote(list, chain, a, maxGas).rest.items == if chain.nonce(a) in standing then standing else map[]
  {
    hide FullScan, PayablePrefix;
    ScanLeavesPrefix(list.(items := Forwarded(list.items, chain.nonce(a))), chain, a, maxGas);
  }

  /** So a strict list is a run from the chain's nonce after demotion exactly if what stands is one, or lacks its front. */
  lemma GapLeftByDemotion(list: ListView, chain: ChainState, a: Address, maxGas: nat)
    requires list.strict
    ensures var standing := Standing(list, chain, a, maxGas);
      Settled(Demote(list, chain, a, maxGas).rest.items, map[], chain.nonce(a))
      <==> chain.nonce(a) !in standing || exists hi: nat :: Interval(standing, chain.nonce(a), hi)
  {
    hide Demote, Standing;
    OnlyFrontChecked(list, chain, a, maxGas);
  }

  ghost predicate HighestPlusOne(p: Items, next: nat) {
    next - 1 in p && forall n :: n in p ==> n < next
  }

  /** The pool's lists and tracked nonces at one moment. */
  datatype Snapshot = Snapshot(pending: Lists, queue: Lists, managed: map<Address, nat>)

  ghost predicate SnapOk(s: Snapshot) { ListsOk(s.pending, true) && ListsOk(s.queue, false) }

  /** The tracked pending nonce: the managed one, or the state's. */
  function TrackedIn(managed: map<Address, nat>, chain: ChainState, a: Address): nat {
    if a in managed then managed[a] else chain.nonce(a)
  }

  function Tracked(s: Snapshot, chain: ChainState, a: Address): nat { TrackedIn(s.managed, chain, a) }

  /** No tracked nonce rises. */
  ghost predicate Lowered(managed: map<Address, nat>, managed': map<Address, nat>, chain: ChainState) {
    forall a {:trigger At(a)} :: At(a) ==> TrackedIn(managed', chain, a) <= TrackedIn(managed, chain, a)
  }

  lemma LoweredAt(managed: map<Address, nat>, chain: ChainState, a: Address, n: nat)
    requires n <= TrackedIn(managed, chain, a)
    ensures Lowered(managed, managed[a := n], chain)
  {}

  lemma LoweredTwice(m: map<Address, nat>, m': map<Address, nat>, m'': map<Address, nat>, chain: ChainState)
    requires Lowered(m, m', chain) && Lowered(m', m'', chain)
    ensures Lowered(m, m'', chain)
  {}

  lemma NothingLowered(m: map<Address, nat>, chain: ChainState)
    ensures Lowered(m, m, chain)
  {}

  /** All queued nonces lie above the tracked one: nothing queued could follow what is pending. */
  ghost predicate DrainedAt(s: Snapshot, chain: ChainState, a: Address) {
    forall n :: n in ItemsOf(s.queue, a) ==> Tracked(s, chain, a) < n
  }

  function LimitFor(locals: set<Address>, accountQueue: nat, a: Address): Option<nat> {
    if a in locals then None else Some(accountQueue)
  }

  /** Nothing of the account differs. */
  ghost predicate SameAt(s: Snapshot, t: Snapshot, a: Address) {
    && (a in s.pending <==> a in t.pending) && (a in s.pending ==> s.pending[a] == t.pending[a])
    && (a in s.queue <==> a in t.queue) && (a in s.queue ==> s.queue[a] == t.queue[a])
    && (a in s.managed <==> a in t.managed) && (a in s.managed ==> s.managed[a] == t.managed[a])
  }

  /** The account's promotion plan was carried out, once. */
  ghost predicate PromotedAt(s: Snapshot, t: Snapshot, chain: ChainState, a: Address, maxGas: nat, limit: Option<nat>) {
    if a !in s.queue then SameAt(s, t, a)
    else
      var plan := Promote(s.queue[a], chain, a, maxGas, Tracked(s, chain, a), limit);
      && ItemsOf(t.pending, a) == ItemsOf(s.pending, a) + plan.run && ItemsOf(t.queue, a) == plan.rest.items
      && (if plan.run == map[] then Tracked(t, chain, a) == Tracked(s, chain, a) else HighestPlusOne(plan.run, Tracked(t, chain, a)))
  }

  /** Exactly the listed accounts were promoted. */
  ghost predicate PromotedAll(s: Snapshot, t: Snapshot, chain: ChainState, maxGas: nat, locals: set<Address>, accountQueue: nat, accounts: set<Address>) {
    forall a {:trigger At(a)} :: At(a) ==>
      if a in accounts then PromotedAt(s, t, chain, a, maxGas, LimitFor(locals, accountQueue, a)) else SameAt(s, t, a)
  }

  lemma PromotedMore(s: Snapshot, t: Snapshot, u: Snapshot, chain: ChainState, maxGas: nat, locals: set<Address>, accountQueue: nat,
                     done: set<Address>, o: Address)
    requires PromotedAll(s, t, chain, maxGas, locals, accountQueue, done) && o !in done
    requires PromotedAt(t, u, chain, o, maxGas, LimitFor(locals, accountQueue, o))
    requires SameElsewhere(t.pending, u.pending, o) && SameElsewhere(t.queue, u.queue, o) && SameNonces(t.managed, u.managed, o)
    ensures PromotedAll(s, u, chain, maxGas, locals, accountQueue, done + {o})
  {
    hide PromotedAt, SameAt;
    forall a | At(a)
      ensures if a in done + {o} then PromotedAt(s, u, chain, a, maxGas, LimitFor(locals, accountQueue, a)) else SameAt(s, u, a)
    {
      if a == o {
        SameThenPromoted(s, t, u, chain, a, maxGas, LimitFor(locals, accountQueue, a));
      } else {
        SameApart(t, u, o, a);
        if a in done { PromotedThenSame(s, t, u, chain, a, maxGas, LimitFor(locals, accountQueue, a)); } else { SameTwice(s, t, u, a); }
      }
    }
  }

  lemma SameApart(t: Snapshot, u: Snapshot, o: Address, a: Address)
    requires SameElsewhere(t.pending, u.pending, o) && SameElsewhere(t.queue, u.queue, o) && SameNonces(t.managed, u.managed, o) && a != o
    ensures SameAt(t, u, a)
  {
    assert At(a);
  }

  lemma SameTwice(s: Snapshot, t: Snapshot, u: Snapshot, a: Address)
    requires SameAt(s, t, a) && SameAt(t, u, a)
    ensures SameAt(s, u, a)
  {}

  lemma SameThenPromoted(s: Snapshot, t: Snapshot, u: Snapshot, chain: ChainState, a: Address, maxGas: nat, limit: Option<nat>)
    requires SameAt(s, t, a) && PromotedAt(t, u, chain, a, maxGas, limit)
    ensures PromotedAt(s, u, chain, a, maxGas, limit)
  {
    hide Promote;
  }

  lemma PromotedThenSame(s: Snapshot, t: Snapshot, u: Snapshot, chain: ChainState, a: Address, maxGas: nat, limit: Option<nat>)
    requires PromotedAt(s, t, chain, a, maxGas, limit) && SameAt(t, u, a)
    ensures PromotedAt(s, u, chain, a, maxGas, limit)
  {
    hide Promote;
  }

  /** The account's demotion plan was carried out. */
  ghost predicate PlanDemoted(p: Lists, q: Lists, p': Lists, q': Lists, chain: ChainState, a: Address, maxGas: nat) {
    if a in p then
      var plan := Demote(p[a], chain, a, maxGas);
      ItemsOf(p', a) == plan.rest.items && ItemsOf(q', a) == ItemsOf(q, a) + plan.postponed
    else a !in p' && ItemsOf(q', a) == ItemsOf(q, a)
  }

  /** Every account's demotion plan was carried out, and exactly what stays pending is tracked. */
  ghost predicate DemotedAll(s: Snapshot, t: Snapshot, chain: ChainState, maxGas: nat) {
    forall a {:trigger At(a)} :: At(a) ==>
      && PlanDemoted(s.pending, s.queue, t.pending, t.queue, chain, a, maxGas)
      && (a in t.pending ==> a in t.managed && HighestPlusOne(ItemsOf(t.pending, a), t.managed[a]))
  }

  /** A queue's contents with the accepted transactions of one account put in, in order. */
  function Enqueued(q: Items, txs: seq<Tx>, accepted: seq<bool>, a: Address): Items
    requires |accepted| <= |txs|
  {
    if accepted == [] then q
    else
      var i := |accepted| - 1;
      var before := Enqueued(q, txs, accepted[..i], a);
      if accepted[i] && txs[i].sender == a then before[txs[i].nonce := txs[i]] else before
  }

  lemma EnqueuedOne(q: Items, txs: seq<Tx>, accepted: seq<bool>, a: Address, more: bool)
    requires |accepted| < |txs|
    ensures var before, tx := Enqueued(q, txs, accepted, a), txs[|accepted|];
      Enqueued(q, txs, accepted + [more], a) == if more && tx.sender == a then before[tx.nonce := tx] else before
  {
    assert (accepted + [more])[..|accepted|] == accepted;
  }

  /** None of the transactions has a nonce that is already pending. */
  ghost predicate NonePending(pending: Lists, txs: seq<Tx>) {
    forall i :: 0 <= i < |txs| ==> txs[i].nonce !in ItemsOf(pending, txs[i].sender)
  }

  /** Pending lists and tracked nonces are as they were; the queues hold the accepted transactions too. */
  ghost predicate Staged(s: Snapshot, t: Snapshot, txs: seq<Tx>, accepted: seq<bool>)
    requires |accepted| <= |txs|
  {
    && t.pending == s.pending && t.managed == s.managed
    && forall a {:trigger At(a)} :: At(a) ==> ItemsOf(t.queue, a) == Enqueued(ItemsOf(s.queue, a), txs, accepted, a)
  }

  lemma StagedOne(s: Snapshot, t: Snapshot, u: Snapshot, txs: seq<Tx>, accepted: seq<bool>, more: bool)
    requires |accepted| < |txs| && Staged(s, t, txs, accepted)
    requires u.pending == t.pending && u.managed == t.managed
    requires var tx := txs[|accepted|];
      if more then SameElsewhere(t.queue, u.queue, tx.sender) && ItemsOf(u.queue, tx.sender) == ItemsOf(t.queue, tx.sender)[tx.nonce := tx]
      else u.queue == t.queue
    ensures Staged(s, u, txs, accepted + [more])
  {
    hide Enqueued;
    forall a | At(a)
      ensures ItemsOf(u.queue, a) == Enqueued(ItemsOf(s.queue, a), txs, accepted + [more], a)
    {
      EnqueuedOne(ItemsOf(s.queue, a), txs, accepted, a, more);
    }
  }

  /** Whatever the queue was, after its promotion plan the tracked nonce and all below it are not queued. */
  lemma PromotedIsDrained(s: Snapshot, t: Snapshot, chain: ChainState, a: Address, maxGas: nat, limit: Option<nat>)
    requires PromotedAt(s, t, chain, a, maxGas, limit)
    ensures DrainedAt(t, chain, a)
  {
    hide Promote;
    if a in s.queue {
      var lo, end := PromotionExact(s.queue[a], chain, a, maxGas, Tracked(s, chain, a), limit);
    }
  }

  /** A promoted account's transaction was dropped for a reason. */
  ghost predicate DroppedAt(s: Snapshot, t: Snapshot, chain: ChainState, a: Address, maxGas: nat, limit: Option<nat>, tx: Tx) {
    && Has(ItemsOf(s.queue, a), tx)
    && (|| tx.nonce < chain.nonce(a)
        || Unpayable(tx, chain.balance(a), maxGas, chain.balance)
        || (limit.Some? && |ItemsOf(t.queue, a)| == limit.value && forall k :: k in ItemsOf(t.queue, a) ==> k < tx.nonce))
  }

  /** Without a limit nothing is lost to it. */
  lemma LocalLoss(s: Snapshot, t: Snapshot, chain: ChainState, a: Address, maxGas: nat, tx: Tx)
    requires DroppedAt(s, t, chain, a, maxGas, None, tx)
    ensures tx.nonce < chain.nonce(a) || Unpayable(tx, chain.balance(a), maxGas, chain.balance)
  {}

  lemma PromotionLoses(s: Snapshot, t: Snapshot, all: set<Tx>, all': set<Tx>, chain: ChainState, a: Address, maxGas: nat, limit: Option<nat>, tx: Tx)
    requires SnapOk(s) && Exact(s.pending, s.queue, all) && Exact(t.pending, t.queue, all') && tx in all && tx !in all'
    requires SameElsewhere(s.pending, t.pending, a) && SameElsewhere(s.queue, t.queue, a) && PromotedAt(s, t, chain, a, maxGas, limit)
    ensures tx.sender == a && DroppedAt(s, t, chain, a, maxGas, limit, tx)
  {
    hide Promote, CapsBound;
    assert At(tx.sender) && At(a);
    assert Has(ItemsOf(s.pending, tx.sender), tx) || Has(ItemsOf(s.queue, tx.sender), tx);
    assert !Has(ItemsOf(t.pending, tx.sender), tx) && !Has(ItemsOf(t.queue, tx.sender), tx);
    if tx.sender == a && a in s.queue {
      var list, next := s.queue[a], Tracked(s, chain, a);
      PromotionParts(list, chain, a, maxGas, next, limit);
      if tx.nonce in list.items { PromotionDrops(list, chain, a, maxGas, next, limit, tx.nonce); }
    }
  }

  /** Demotion loses exactly used and unpayable pending transactions. */
  ghost predicate DemotedFor(p: Lists, chain: ChainState, maxGas: nat, tx: Tx) {
    && Has(ItemsOf(p, tx.sender), tx)
    && (tx.nonce < chain.nonce(tx.sender) || Unpayable(tx, chain.balance(tx.sender), maxGas, chain.balance))
  }

  lemma DemotionLoses(p: Lists, q: Lists, all: set<Tx>, p': Lists, q': Lists, all': set<Tx>, chain: ChainState, maxGas: nat, tx: Tx)
    requires Exact(p, q, all) && Exact(p', q', all') && tx in all && tx !in all'
    requires PlanDemoted(p, q, p', q', chain, tx.sender, maxGas)
    ensures DemotedFor(p, chain, maxGas, tx)
  {
    hide Demote;
    var a := tx.sender;
    assert At(a);
    assert Has(ItemsOf(p, a), tx) || Has(ItemsOf(q, a), tx);
    assert !Has(ItemsOf(p', a), tx) && !Has(ItemsOf(q', a), tx);
    if a in p {
      var plan := Demote(p[a], chain, a, maxGas);
      DemotionParts(p[a], chain, a, maxGas);
      if tx.nonce in p[a].items { DemotionDrops(p[a], chain, a, maxGas, tx.nonce); }
    }
  }

  /** The account's queue has gained nothing. */
  ghost predicate QueuePart(q: Lists, q': Lists, a: Address) { Part(ItemsOf(q', a), ItemsOf(q, a)) }

  lemma PlanIsPart(s: Snapshot, chain: ChainState, a: Address, maxGas: nat, limit: Option<nat>)
    requires SnapOk(s) && a in s.queue
    ensures Part(Promote(s.queue[a], chain, a, maxGas, Tracked(s, chain, a), limit).rest.items, ItemsOf(s.queue, a))
  {
    hide Promote, CapsBound;
    assert At(a);
    PromotionParts(s.queue[a], chain, a, maxGas, Tracked(s, chain, a), limit);
  }

  ghost predicate DrainedAll(s: Snapshot, chain: ChainState, accounts: set<Address>) {
    forall a :: a in accounts ==> DrainedAt(s, chain, a)
  }

  /** No queue has gained anything. */
  ghost predicate QueuesPart(q: Lists, q': Lists) { forall a {:trigger At(a)} :: At(a) ==> QueuePart(q, q', a) }

  lemma DrainedMore(t: Snapshot, u: Snapshot, chain: ChainState, done: set<Address>, o: Address)
    requires DrainedAll(t, chain, done) && DrainedAt(u, chain, o)
    requires SameElsewhere(t.pending, u.pending, o) && SameElsewhere(t.queue, u.queue, o) && SameNonces(t.managed, u.managed, o)
    ensures DrainedAll(u, chain, done + {o})
  {
    forall a | a in done + {o}
      ensures DrainedAt(u, chain, a)
    {
      if a != o {
        SameApart(t, u, o, a);
        assert DrainedAt(t, chain, a);
        assert ItemsOf(u.queue, a) == ItemsOf(t.queue, a);
        assert Tracked(u, chain, a) == Tracked(t, chain, a);
      }
    }
  }

  lemma QueuesPartMore(q: Lists, q': Lists, q'': Lists, o: Address)
    requires QueuesPart(q, q') && QueuePart(q', q'', o) && SameElsewhere(q', q'', o)
    ensures QueuesPart(q, q'')
  {}

  /** With lower tracked nonces and less in the queues, drained accounts stay drained. */
  lemma DrainedStays(s: Snapshot, t: Snapshot, chain: ChainState, accounts: set<Address>)
    requires DrainedAll(s, chain, accounts) && Lowered(s.managed, t.managed, chain) && QueuesPart(s.queue, t.queue)
    ensures DrainedAll(t, chain, accounts)
  {
    forall a | a in accounts
      ensures DrainedAt(t, chain, a)
    {
      assert At(a);
      assert DrainedAt(s, chain, a);
    }
  }

  /** Every transaction that promotion lost belonged to a listed account and was dropped for a reason. */
  ghost predicate Losses(s: Snapshot, t: Snapshot, all: set<Tx>, all': set<Tx>, chain: ChainState, maxGas: nat, locals: set<Address>,
                         accountQueue: nat, accounts: set<Address>)
  {
    forall tx :: tx in all && tx !in all' ==>
      tx.sender in accounts && DroppedAt(s, t, chain, tx.sender, maxGas, LimitFor(locals, accountQueue, tx.sender), tx)
  }

  /** The lists determine what is pooled. */
  lemma ListsDetermine(p: Lists, q: Lists, all: set<Tx>, all': set<Tx>)
    requires Exact(p, q, all) && Exact(p, q, all')
    ensures all == all'
  {
    forall tx
      ensures tx in all <==> tx in all'
    {
      assert At(tx.sender);
    }
  }

  lemma LossesMore(s: Snapshot, t: Snapshot, u: Snapshot, all: set<Tx>, all': set<Tx>, all'': set<Tx>, chain: ChainState, maxGas: nat,
                   locals: set<Address>, accountQueue: nat, done: set<Address>, o: Address)
    requires PromotedAll(s, t, chain, maxGas, locals, accountQueue, done) && o !in done
    requires Losses(s, t, all, all', chain, maxGas, locals, accountQueue, done)
    requires forall tx :: tx in all' && tx !in all'' ==> tx.sender == o && DroppedAt(t, u, chain, o, maxGas, LimitFor(locals, accountQueue, o), tx)
    requires SameElsewhere(t.pending, u.pending, o) && SameElsewhere(t.queue, u.queue, o) && SameNonces(t.managed, u.managed, o)
    ensures Losses(s, u, all, all'', chain, maxGas, locals, accountQueue, done + {o})
  {
    hide PromotedAt, Unpayable;
    forall tx | tx in all && tx !in all''
      ensures tx.sender in done + {o} && DroppedAt(s, u, chain, tx.sender, maxGas, LimitFor(locals, accountQueue, tx.sender), tx)
    {
      assert At(tx.sender);
      if tx !in all' {
        SameApart(t, u, o, tx.sender);
      }
    }
  }

  lemma NothingLost(s: Snapshot, all: set<Tx>, chain: ChainState, maxGas: nat, locals: set<Address>, accountQueue: nat)
    ensures Losses(s, s, all, all, chain, maxGas, locals, accountQueue, {}) && DrainedAll(s, chain, {}) && QueuesPart(s.queue, s.queue)
  {}

  /** No account has anything queued that it could execute next. */
  ghost predicate AllDrained(s: Snapshot, chain: ChainState) { forall a {:trigger At(a)} :: At(a) ==> DrainedAt(s, chain, a) }

  lemma DrainedEverywhere(q: Lists, s: Snapshot, chain: ChainState)
    requires DrainedAll(s, chain, q.Keys) && QueuesPart(q, s.queue)
    ensures AllDrained(s, chain)
  {}

  /** Used up, unpayable, or beyond a remote account's queue limit, the queue being full of lower nonces. */
  ghost predicate LostFor(t: Snapshot, chain: ChainState, maxGas: nat, locals: set<Address>, accountQueue: nat, tx: Tx) {
    || tx.nonce < chain.nonce(tx.sender)
    || Unpayable(tx, chain.balance(tx.sender), maxGas, chain.balance)
    || (&& tx.sender !in locals && |ItemsOf(t.queue, tx.sender)| == accountQueue
        && forall k :: k in ItemsOf(t.queue, tx.sender) ==> k < tx.nonce)
  }

  lemma LostInReset(p: Lists, s: Snapshot, t: Snapshot, all: set<Tx>, all': set<Tx>, all'': set<Tx>, chain: ChainState, maxGas: nat,
                    locals: set<Address>, accountQueue: nat, accounts: set<Address>)
    requires forall tx :: tx in all && tx !in all' ==> DemotedFor(p, chain, maxGas, tx)
    requires Losses(s, t, all', all'', chain, maxGas, locals, accountQueue, accounts)
    ensures forall tx :: tx in all && tx !in all'' ==> LostFor(t, chain, maxGas, locals, accountQueue, tx)
  {
    hide Unpayable;
  }
}
