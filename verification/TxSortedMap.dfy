/** txSortedMap: a nonce map with a heap of its nonces and a cache of its sorted contents. */
module SortedMaps {
  import opened Transactions
  import opened NonceItems
  import opened Heaps

  predicate NonceLe(a: nat, b: nat) { a <= b }

  predicate TxNonceLe(a: Tx, b: Tx) { a.nonce <= b.nonce }

  lemma NonceOrders()
    ensures TotalPreorder(NonceLe) && TotalPreorder(TxNonceLe)
  {}

  /** The index lists every stored nonce exactly once. */
  ghost predicate Indexes(index: seq<nat>, m: Items) {
    multiset(index) == multiset(m.Keys)
  }

  lemma IndexMembers(index: seq<nat>, m: Items)
    requires Indexes(index, m)
    ensures |index| == |m| && forall n :: n in index <==> n in m
  {
    assert |multiset(index)| == |index|;
    forall n
      ensures n in index <==> n in m
    {
      assert n in index <==> n in multiset(index);
    }
  }

  lemma {:induction false} PrefixNonces(c: seq<Tx>, i: nat)
    requires NonceSorted(c) && i <= |c|
    ensures |set k | 0 <= k < i :: c[k].nonce| == i
  {
    if i > 0 {
      PrefixNonces(c, i - 1);
      var before, last := set k | 0 <= k < i - 1 :: c[k].nonce, c[i - 1].nonce;
      assert last !in before;
      NextNonce(c, i);
    }
  }

  lemma NextNonce(c: seq<Tx>, i: nat)
    requires 0 < i <= |c|
    ensures (set k | 0 <= k < i :: c[k].nonce) == (set k | 0 <= k < i - 1 :: c[k].nonce) + {c[i - 1].nonce}
  {
    var s, before, last := set k | 0 <= k < i :: c[k].nonce, set k | 0 <= k < i - 1 :: c[k].nonce, c[i - 1].nonce;
    forall n ensures n in s <==> n in before || n == last {
      if n in s {
        var k :| 0 <= k < i && c[k].nonce == n;
        if k < i - 1 { assert n in before; }
      }
      if n in before {
        var k :| 0 <= k < i - 1 && c[k].nonce == n;
        assert c[k].nonce in s;
      }
      if n == last { assert c[i - 1].nonce in s; }
    }
  }

  /** In a flattening, position is rank: exactly i nonces lie below the i-th transaction. */
  lemma FlatRank(c: seq<Tx>, m: Items, i: nat)
    requires Keyed(m) && IsFlat(c, m) && i < |c|
    ensures c[i].nonce in m && m[c[i].nonce] == c[i] && |Below(m.Keys, c[i].nonce)| == i
  {
    assert c[i] in c;
    PrefixNonces(c, i);
    var s := set k | 0 <= k < i :: c[k].nonce;
    forall n
      ensures n in s <==> n in Below(m.Keys, c[i].nonce)
    {
      if n in s {
        var k :| 0 <= k < i && c[k].nonce == n;
        assert c[k] in c;
      }
      if n in Below(m.Keys, c[i].nonce) {
        assert Has(m, m[n]);
        var k :| 0 <= k < |c| && c[k] == m[n];
        assert k < i;
      }
    }
    assert s == Below(m.Keys, c[i].nonce);
  }

  lemma FlatLength(c: seq<Tx>, m: Items)
    requires Keyed(m) && IsFlat(c, m)
    ensures |c| == |m|
  {
    PrefixNonces(c, |c|);
    var s := set k | 0 <= k < |c| :: c[k].nonce;
    forall n
      ensures n in s <==> n in m.Keys
    {
      if n in m {
        assert Has(m, m[n]);
        var k :| 0 <= k < |c| && c[k] == m[n];
      }
      if n in s {
        var k :| 0 <= k < |c| && c[k].nonce == n;
        assert c[k] in c;
      }
    }
    assert s == m.Keys;
  }

  /** Shifting the front of the cache: dropping as many entries as nonces fell below the threshold. */
  lemma FlatForward(c: seq<Tx>, m: Items, threshold: nat, k: nat)
    requires Keyed(m) && IsFlat(c, m) && k == |Below(m.Keys, threshold)|
    ensures k <= |c| && IsFlat(c[k..], Forwarded(m, threshold))
  {
    FlatLength(c, m);
    assert Below(m.Keys, threshold) <= m.Keys;
    SubsetSize(Below(m.Keys, threshold), m.Keys);
    forall i | 0 <= i < |c|
      ensures c[i].nonce < threshold <==> i < k
    {
      FlatRank(c, m, i);
      if c[i].nonce < threshold {
        SubsetSize(Below(m.Keys, c[i].nonce) + {c[i].nonce}, Below(m.Keys, threshold));
      } else {
        SubsetSize(Below(m.Keys, threshold), Below(m.Keys, c[i].nonce));
      }
    }
    forall t
      ensures t in c[k..] <==> Has(Forwarded(m, threshold), t)
    {
      if Has(Forwarded(m, threshold), t) {
        assert t in c;
        var i :| 0 <= i < |c| && c[i] == t;
        assert c[k..][i - k] == t;
      }
      if t in c[k..] {
        var i :| k <= i < |c| && c[i] == t;
        FlatRank(c, m, i);
      }
    }
  }

  /** Shifting the back of the cache: a prefix of a flattening flattens the capped map. */
  lemma FlatCapped(c: seq<Tx>, m: Items, limit: nat)
    requires Keyed(m) && IsFlat(c, m) && limit <= |c|
    ensures IsFlat(c[..limit], Capped(m, limit))
  {
    forall t
      ensures t in c[..limit] <==> Has(Capped(m, limit), t)
    {
      if t in c[..limit] {
        var i :| 0 <= i < limit && c[i] == t;
        FlatRank(c, m, i);
      }
      if Has(Capped(m, limit), t) {
        assert t in c;
        var i :| 0 <= i < |c| && c[i] == t;
        FlatRank(c, m, i);
      }
    }
  }

  lemma {:induction false} SubsetSize<T>(a: set<T>, b: set<T>)
    requires a <= b
    ensures |a| <= |b|
  {
    if a != {} {
      var x :| x in a;
      SubsetSize(a - {x}, b - {x});
    }
  }

  lemma NoRepeats<T(!new)>(s: seq<T>, k: set<T>)
    requires multiset(s) == multiset(k)
    ensures forall i, j :: 0 <= i < j < |s| ==> s[i] != s[j]
    ensures forall x :: x in s <==> x in k
  {
    forall x
      ensures x in s <==> x in k
    {
      assert x in s <==> x in multiset(s);
    }
    forall i, j | 0 <= i < j < |s|
      ensures s[i] != s[j]
    {
      assert s == s[..i] + [s[i]] + s[i + 1..j] + [s[j]] + s[j + 1..];
      assert multiset(s)[s[i]] <= 1;
    }
  }

  lemma {:induction false} ListedOnce<T(!new)>(s: seq<T>, k: set<T>)
    requires forall i, j :: 0 <= i < j < |s| ==> s[i] != s[j]
    requires forall x :: x in s <==> x in k
    ensures multiset(s) == multiset(k)
  {
    assert s == [] ==> k == {};
    if s != [] {
      var last := s[|s| - 1];
      var front := s[..|s| - 1];
      assert s == front + [last];
      forall x
        ensures x in front <==> x in k - {last}
      {
        assert x in s <==> x in front || x == last;
      }
      assert last in s;
      ListedOnce(front, k - {last});
    }
  }

  /** Sorted by nonce without repeats, the stored transactions are a flattening. */
  lemma EnumeratedFlat(s: seq<Tx>, m: Items)
    requires Keyed(m) && Sorted(s, TxNonceLe) && multiset(s) == multiset(Txs(m))
    ensures IsFlat(s, m)
  {
    NoRepeats(s, Txs(m));
    forall t
      ensures t in s <==> Has(m, t)
    {
      TxsHas(m, t);
    }
    forall i, j | 0 <= i < j < |s|
      ensures s[i].nonce < s[j].nonce
    {
      assert s[i] in s && s[j] in s && TxNonceLe(s[i], s[j]);
    }
  }

  /** Sorted by nonce, the stored nonces are listed by rank: position is the number of nonces below. */
  lemma SortedRank(s: seq<nat>, m: Items, n: nat)
    requires Keyed(m) && Sorted(s, NonceLe) && Indexes(s, m) && n in m
    ensures |s| == |m| && |Below(m.Keys, n)| < |s| && s[|Below(m.Keys, n)|] == n
  {
    IndexMembers(s, m);
    NoRepeats(s, m.Keys);
    assert forall i :: 0 <= i < |s| ==> s[i] in s;
    var c := seq(|s|, i requires 0 <= i < |s| => m[s[i]]);
    forall i, j | 0 <= i < j < |c|
      ensures c[i].nonce < c[j].nonce
    {
      assert NonceLe(s[i], s[j]);
    }
    forall t
      ensures t in c <==> Has(m, t)
    {
      if Has(m, t) {
        var i :| 0 <= i < |s| && s[i] == t.nonce;
        assert c[i] == t;
      }
    }
    var i :| 0 <= i < |s| && s[i] == n;
    FlatRank(c, m, i);
  }

  lemma SortedPrefix(s: seq<nat>, m: Items, limit: nat)
    requires Keyed(m) && Sorted(s, NonceLe) && Indexes(s, m) && limit <= |s|
    ensures Indexes(s[..limit], Capped(m, limit))
  {
    NoRepeats(s, m.Keys);
    forall n
      ensures n in s[..limit] <==> n in Capped(m, limit).Keys
    {
      if n in m {
        SortedRank(s, m, n);
        if n in s[..limit] {
          var i :| 0 <= i < limit && s[i] == n;
          assert i == |Below(m.Keys, n)|;
        }
        if n in Capped(m, limit) {
          assert s[..limit][|Below(m.Keys, n)|] == n;
        }
      }
    }
    ListedOnce(s[..limit], Capped(m, limit).Keys);
  }

  lemma CapNothing(m: Items, limit: nat)
    requires |m| <= limit
    ensures Capped(m, limit) == m
  {
    forall n | n in m
      ensures |Below(m.Keys, n)| < limit
    {
      SubsetSize(Below(m.Keys, n) + {n}, m.Keys);
    }
  }

  ghost predicate IsGreatest(hi: nat, s: set<nat>) {
    hi in s && forall n :: n in s ==> n <= hi
  }

  lemma {:induction false} HasGreatest(s: set<nat>) returns (hi: nat)
    requires s != {}
    ensures IsGreatest(hi, s)
  {
    var x :| x in s;
    hi := x;
    if s != {x} {
      hi := HasGreatest(s - {x});
      assert forall n :: n in s ==> n == x || n in s - {x};
      if hi < x { hi := x; }
    }
  }

  lemma BelowGreatest(keys: set<nat>, hi: nat)
    requires IsGreatest(hi, keys)
    ensures Below(keys, hi) == keys - {hi}
    ensures forall n :: n in keys && n != hi ==> Below(keys, n) == Below(keys - {hi}, n)
  {}

  /** A cap below the size takes the highest nonce, and then caps what remains. */
  lemma CapTakesHighest(m: Items, limit: nat, hi: nat)
    requires IsGreatest(hi, m.Keys) && limit < |m|
    ensures Capped(m, limit) == Capped(m - {hi}, limit)
  {
    hide Below;
    BelowGreatest(m.Keys, hi);
    assert (m - {hi}).Keys == m.Keys - {hi};
    assert |Below(m.Keys, hi)| == |m| - 1;
  }

  lemma {:induction false} CappedSize(m: Items, limit: nat)
    ensures |Capped(m, limit)| == if limit < |m| then limit else |m|
    decreases |m|
  {
    if |m| <= limit {
      CapNothing(m, limit);
    } else {
      var hi := HasGreatest(m.Keys);
      CapTakesHighest(m, limit, hi);
      assert (m - {hi}).Keys == m.Keys - {hi};
      CappedSize(m - {hi}, limit);
    }
  }

  /** Capping twice is capping once, at the lower limit. */
  lemma CapCap(m: Items, limit: nat, lower: nat)
    requires lower <= limit
    ensures Capped(Capped(m, limit), lower) == Capped(m, lower)
  {
    var c := Capped(m, limit);
    forall n | n in c
      ensures Below(c.Keys, n) == Below(m.Keys, n)
    {
      forall k | k in Below(m.Keys, n)
        ensures k in c
      {
        SubsetSize(Below(m.Keys, k), Below(m.Keys, n));
      }
    }
  }

  lemma RemovedIndex(index: seq<nat>, rest: seq<nat>, n: nat, m: Items)
    requires Indexes(index, m) && multiset(index) == multiset(rest) + multiset{n}
    ensures n in m && Indexes(rest, m - {n})
  {
    assert n in multiset(index);
    assert (m - {n}).Keys == m.Keys - {n};
    assert multiset(m.Keys) == multiset(m.Keys - {n}) + multiset{n};
    assert multiset(rest) == multiset(index) - multiset{n};
  }

  /** Retiring the lowest remaining transaction extends the retired prefix by it. */
  lemma RetireNext(m: Items, b: nat, removed: seq<Tx>, tx: Tx)
    requires Keyed(m) && Has(m, tx) && b <= tx.nonce
    requires forall n :: n in m && b <= n ==> tx.nonce <= n
    requires IsFlat(removed, Retired(m, b))
    ensures IsFlat(removed + [tx], Retired(m, tx.nonce + 1))
    ensures Forwarded(m, b) - {tx.nonce} == Forwarded(m, tx.nonce + 1)
  {
    var r := removed + [tx];
    forall i, j | 0 <= i < j < |r|
      ensures r[i].nonce < r[j].nonce
    {
      assert r[i] in removed;
    }
    forall t
      ensures t in r <==> Has(Retired(m, tx.nonce + 1), t)
    {
      assert t in r <==> t in removed || t == tx;
    }
  }

  lemma NothingRetired(m: Items)
    ensures IsFlat([], Retired(m, 0)) && m == Forwarded(m, 0)
  {}

  lemma RetireRest(m: Items, rest: Items, bound: nat, threshold: nat)
    requires bound <= threshold && rest == Forwarded(m, bound) && forall n :: n in rest ==> threshold <= n
    ensures rest == Forwarded(m, threshold) && Retired(m, bound) == Retired(m, threshold)
  {
    assert forall n :: n in m && bound <= n ==> n in rest;
  }

  lemma NothingGone(m: Items, kept: Items)
    requires Keyed(m) && kept.Keys <= m.Keys && |m| == |kept| && forall n :: n in kept ==> kept[n] == m[n]
    ensures kept == m
  {
    assert m.Keys == kept.Keys + (m.Keys - kept.Keys);
    assert |m.Keys| == |kept.Keys| + |m.Keys - kept.Keys|;
  }

  /** One pass over the map in any order, deleting what satisfies the condition. */
  method Partition(m: Items, drop: Tx -> bool) returns (kept: Items, removed: seq<Tx>)
    requires Keyed(m)
    ensures kept == Filtered(m, drop)
    ensures Elements(removed) == Txs(Without(m, kept)) && |removed| == |m| - |kept|
  {
    kept, removed := m, [];
    var todo := m.Keys;
    while todo != {}
      invariant todo <= kept.Keys <= m.Keys && |removed| == |m| - |kept|
      invariant forall n :: n in kept ==> kept[n] == m[n]
      invariant forall n :: n in m && n !in todo ==> (n in kept <==> !drop(m[n]))
      invariant forall t :: t in removed <==> Has(m, t) && t.nonce !in kept
      decreases todo
    {
      var n :| n in todo;
      todo := todo - {n};
      if drop(kept[n]) {
        removed := removed + [kept[n]];
        assert (kept - {n}).Keys == kept.Keys - {n};
        kept := kept - {n};
      }
    }
    RemovedSet(m, kept, removed);
  }

  lemma RemovedSet(m: Items, kept: Items, removed: seq<Tx>)
    requires Keyed(m) && forall t :: t in removed <==> Has(m, t) && t.nonce !in kept
    ensures Elements(removed) == Txs(Without(m, kept))
  {
    forall t
      ensures t in removed <==> t in Txs(Without(m, kept))
    {
      TxsHas(Without(m, kept), t);
    }
  }

  lemma CapStep(m: Items, sorted: seq<nat>, size: nat)
    requires Keyed(m) && Sorted(sorted, NonceLe) && Indexes(sorted, m) && 0 < size <= |m|
    ensures |sorted| == |m| && sorted[size - 1] in Capped(m, size)
    ensures Capped(m, size) - {sorted[size - 1]} == Capped(m, size - 1)
  {
    IndexMembers(sorted, m);
    NoRepeats(sorted, m.Keys);
    var last := sorted[size - 1];
    forall n | n in m
      ensures n in Capped(m, size) <==> n == last || n in Capped(m, size - 1)
      ensures last !in Capped(m, size - 1)
    {
      SortedRank(sorted, m, n);
      SortedRank(sorted, m, last);
    }
  }

  /** Deletes the highest nonces one by one, walking the sorted index from its end. */
  method DropHighest(m: Items, sorted: seq<nat>, limit: nat) returns (kept: Items, drops: seq<Tx>)
    requires Keyed(m) && Sorted(sorted, NonceLe) && Indexes(sorted, m) && limit <= |m|
    ensures kept == Capped(m, limit)
    ensures Elements(drops) == Txs(Without(m, kept)) && |drops| == |m| - limit == |m| - |kept|
  {
    kept, drops := m, [];
    CapNothing(m, |m|);
    var size := |m|;
    while limit < size
      invariant limit <= size <= |m| && |drops| == |m| - size && |kept| == size
      invariant kept == Capped(m, size)
      invariant forall t :: t in drops <==> Has(m, t) && t.nonce !in kept
    {
      CapStep(m, sorted, size);
      var n := sorted[size - 1];
      drops := drops + [kept[n]];
      assert (kept - {n}).Keys == kept.Keys - {n};
      kept := kept - {n};
      size := size - 1;
    }
    RemovedSet(m, kept, drops);
  }

  method Flat(m: Items) returns (s: seq<Tx>)
    requires Keyed(m)
    ensures IsFlat(s, m) && |s| == |m|
  {
    NonceOrders();
    var values := Enumerate(Txs(m));
    s := Sort(values, TxNonceLe);
    EnumeratedFlat(s, m);
    FlatLength(s, m);
  }

  class TxSortedMap {
    var items: Items
    var index: seq<nat>
    var cache: Option<seq<Tx>>

    ghost predicate Valid()
      reads this
    {
      && Keyed(items)
      && Ordered(index, NonceLe)
      && Indexes(index, items)
      && (cache.Some? ==> IsFlat(cache.value, items))
    }

    constructor ()
      ensures Valid() && items == map[]
    {
      items, index, cache := map[], [], None;
    }

    method Put(tx: Tx)
      requires Valid()
      modifies this
      ensures Valid() && items == old(items)[tx.nonce := tx]
    {
      NonceOrders();
      if tx.nonce !in items {
        index := Push(index, tx.nonce, NonceLe);
        assert items[tx.nonce := tx].Keys == items.Keys + {tx.nonce};
      } else {
        assert items[tx.nonce := tx].Keys == items.Keys;
      }
      items, cache := items[tx.nonce := tx], None;
    }

    /** Pops the lowest nonce off the index and the map together. */
    method PopLowest() returns (tx: Tx)
      requires Valid() && index != []
      modifies this`items, this`index
      ensures Keyed(items) && Ordered(index, NonceLe) && Indexes(index, items) && |index| == old(|index|) - 1
      ensures tx.nonce == old(index[0]) && Has(old(items), tx) && items == old(items) - {tx.nonce}
      ensures forall n :: n in items ==> tx.nonce < n
    {
      NonceOrders();
      IndexMembers(index, items);
      var n, rest := Pop(index, NonceLe);
      tx := items[n];
      RemovedIndex(index, rest, n, items);
      items, index := items - {n}, rest;
      forall k | k in items
        ensures n < k
      {
        assert k in old(index);
      }
    }

    method Forward(threshold: nat) returns (removed: seq<Tx>)
      requires Valid()
      modifies this
      ensures Valid() && items == Forwarded(old(items), threshold)
      ensures IsFlat(removed, Retired(old(items), threshold))
    {
      var shown := cache;
      cache := None;
      removed := PopBelow(threshold);
      if shown.Some? {
        FlatLength(removed, Retired(old(items), threshold));
        assert Retired(old(items), threshold).Keys == Below(old(items).Keys, threshold);
        FlatForward(shown.value, old(items), threshold, |removed|);
        cache := Some(shown.value[|removed|..]);
      }
    }

    /** Pops every nonce below the threshold off the index. */
    method PopBelow(threshold: nat) returns (removed: seq<Tx>)
      requires Valid() && cache.None?
      modifies this
      ensures Valid() && cache.None? && items == Forwarded(old(items), threshold)
      ensures IsFlat(removed, Retired(old(items), threshold))
    {
      hide IsFlat;
      removed := [];
      ghost var bound: nat := 0;
      NothingRetired(items);
      while index != [] && index[0] < threshold
        invariant Valid() && cache.None?
        invariant bound <= threshold && items == Forwarded(old(items), bound)
        invariant IsFlat(removed, Retired(old(items), bound))
        decreases |index|
      {
        assert forall n :: n in old(items) && bound <= n ==> n in items;
        LowestIsFront();
        var tx := PopLowest();
        RetireNext(old(items), bound, removed, tx);
        removed, bound := removed + [tx], tx.nonce + 1;
      }
      if index != [] { LowestIsFront(); } else { IndexMembers(index, items); }
      RetireRest(old(items), items, bound, threshold);
    }

    method Filter(drop: Tx -> bool) returns (removed: seq<Tx>)
      requires Valid()
      modifies this
      ensures Valid() && items == Filtered(old(items), drop)
      ensures Elements(removed) == Txs(Without(old(items), items)) && |removed| == |old(items)| - |items|
    {
      var kept;
      kept, removed := Partition(items, drop);
      if removed != [] {
        NonceOrders();
        var keys := Enumerate(kept.Keys);
        index := Init(keys, NonceLe);
        cache := None;
      } else {
        NothingGone(items, kept);
      }
      items := kept;
    }

    method Cap(limit: nat) returns (drops: seq<Tx>)
      requires Valid()
      modifies this
      ensures Valid() && items == Capped(old(items), limit)
      ensures Elements(drops) == Txs(Without(old(items), items)) && |drops| == |old(items)| - |items|
    {
      if |items| <= limit {
        CapNothing(items, limit);
        return [];
      }
      NonceOrders();
      IndexMembers(index, items);
      var sorted := Sort(index, NonceLe);
      var kept;
      kept, drops := DropHighest(items, sorted, limit);
      SortedPrefix(sorted, items, limit);
      if cache.Some? {
        FlatLength(cache.value, items);
        FlatCapped(cache.value, items, limit);
        cache := Some(cache.value[..|cache.value| - |drops|]);
      }
      items := kept;
      index := Init(sorted[..limit], NonceLe);
    }

    method Remove(nonce: nat) returns (found: bool)
      requires Valid()
      modifies this
      ensures Valid() && found == (nonce in old(items)) && items == old(items) - {nonce}
    {
      NonceOrders();
      IndexMembers(index, items);
      if nonce !in items {
        assert items - {nonce} == items;
        return false;
      }
      var i := 0;
      while i < |index| && index[i] != nonce
        invariant 0 <= i <= |index| && nonce !in index[..i]
      {
        i := i + 1;
      }
      assert index == index[..i] + index[i..];
      var rest := RemoveAt(index, i, NonceLe);
      RemovedIndex(index, rest, nonce, items);
      items, index, cache := items - {nonce}, rest, None;
      return true;
    }

    method Ready(start: nat) returns (ready: seq<Tx>)
      requires Valid()
      modifies this
      ensures Valid() && items == Without(old(items), ReadyRun(old(items), start))
      ensures IsFlat(ready, ReadyRun(old(items), start))
    {
      ready := [];
      IndexMembers(index, items);
      if index == [] || start < index[0] {
        if index != [] { LowestIsFront(); }
        assert ReadyRun(items, start) == map[];
        assert Without(items, ReadyRun(items, start)) == items;
        return;
      }
      LowestIsFront();
      var lo := index[0];
      var next := lo;
      cache := None;
      while index != [] && index[0] == next
        invariant Valid() && cache.None? && lo <= next
        invariant forall n :: n in items <==> n in old(items) && next <= n
        invariant forall n :: n in items ==> items[n] == old(items)[n]
        invariant forall n :: lo <= n < next ==> n in old(items)
        invariant |ready| == next - lo && forall i :: 0 <= i < |ready| ==> lo + i in old(items) && ready[i] == old(items)[lo + i]
        decreases |index|
      {
        var tx := PopLowest();
        ready := ready + [tx];
        next := next + 1;
      }
      if index != [] { LowestIsFront(); } else { IndexMembers(index, items); }
      assert next !in old(items);
      assert forall n: nat :: InFirstRun(old(items), n) <==> lo <= n < next;
      forall t
        ensures t in ready <==> Has(ReadyRun(old(items), start), t)
      {
        if Has(ReadyRun(old(items), start), t) {
          assert ready[t.nonce - lo] == t;
        }
      }
    }

    lemma LowestIsFront()
      requires Valid() && index != []
      ensures index[0] in items && Lowest(items.Keys) == index[0]
    {
      NonceOrders();
      IndexMembers(index, items);
      var i :| 0 <= i < |index| && index[i] == Lowest(items.Keys);
      FrontIsLeast(index, i, NonceLe);
    }

    method Flatten() returns (txs: seq<Tx>)
      requires Valid()
      modifies this`cache
      ensures Valid() && cache == Some(txs) && IsFlat(txs, items)
    {
      if cache.None? {
        var sorted := Flat(items);
        cache := Some(sorted);
      }
      txs := cache.value;
    }
  }
}
