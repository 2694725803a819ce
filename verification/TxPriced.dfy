/** txPricedList: a price heap over the whole pool that is cleaned of removed transactions lazily. */
module PricedLists {
  import opened Transactions
  import opened Heaps
  import opened SortedMaps

  /** Cheaper first; at equal price the higher nonce first. */
  predicate PriceLe(a: Tx, b: Tx) {
    a.price < b.price || (a.price == b.price && b.nonce <= a.nonce)
  }

  lemma PriceOrder()
    ensures TotalPreorder(PriceLe)
  {}

  /** By how much the stale counter exceeds the heap's surplus over the pool. */
  function Drift(items: seq<Tx>, stales: int, all: set<Tx>): int {
    stales - (|items| - |all|)
  }

  /** Every pooled transaction has a heap entry, and the counter covers the surplus entries. */
  ghost predicate Sound(items: seq<Tx>, stales: int, all: set<Tx>) {
    all <= Elements(items) && 0 <= Drift(items, stales, all)
  }

  /** The number of heap entries whose transaction is no longer pooled. */
  function Absent(items: seq<Tx>, all: set<Tx>): nat {
    if items == [] then 0 else (if items[0] in all then 0 else 1) + Absent(items[1..], all)
  }

  lemma {:induction false} AbsentBound(items: seq<Tx>, all: set<Tx>)
    requires all <= Elements(items)
    ensures |all| + Absent(items, all) <= |items|
  {
    if items != [] {
      var t, rest := items[0], items[1..];
      assert items == [t] + rest;
      if t in all && t !in rest {
        AbsentBound(rest, all - {t});
        AbsentAgrees(rest, all, all - {t});
      } else {
        AbsentBound(rest, all);
      }
    }
  }

  lemma {:induction false} AbsentAgrees(items: seq<Tx>, a: set<Tx>, b: set<Tx>)
    requires forall t :: t in items ==> (t in a <==> t in b)
    ensures Absent(items, a) == Absent(items, b)
  {
    if items != [] {
      AbsentAgrees(items[1..], a, b);
    }
  }

  /** The lazy counter never undercounts: it bounds the dead entries, so it is never negative. */
  lemma StalesBoundAbsent(items: seq<Tx>, stales: int, all: set<Tx>)
    requires Sound(items, stales, all)
    ensures Absent(items, all) <= stales && 0 <= stales
  {
    AbsentBound(items, all);
  }

  lemma SplitMembers(h: seq<Tx>, r: seq<Tx>, x: Tx)
    requires multiset(h) == multiset(r) + multiset{x}
    ensures forall y :: y in h <==> y in r || y == x
  {
    forall y
      ensures y in h <==> y in r || y == x
    {
      assert y in h <==> y in multiset(h);
      assert y in r <==> y in multiset(r);
    }
  }

  /** What one cleaning pass keeps: entries are only moved to the two lists or thrown out as stale. */
  ghost predicate Passing(items0: seq<Tx>, stales0: int, items: seq<Tx>, stales: int,
                          save: seq<Tx>, drop: seq<Tx>, all: set<Tx>, locals: set<Address>) {
    && Ordered(items, PriceLe)
    && |items| + |save| + |drop| - stales == |items0| - stales0
    && (all <= Elements(items0) ==> forall t :: t in all ==> t in items || t in save || t in drop)
    && (forall t :: t in save ==> t in all)
    && (forall t :: t in drop ==> t in all && t.sender !in locals)
  }

  /** How many of the heap's entries are for t. */
  function Entries(items: seq<Tx>, t: Tx): nat { multiset(items)[t] }

  /** No pooled remote transaction has more than one heap entry. */
  ghost predicate NoneRepeated(items: seq<Tx>, all: set<Tx>, locals: set<Address>) {
    forall t :: t in all && t.sender !in locals ==> Entries(items, t) <= 1
  }

  /** A pass loses no entry of a pooled transaction. */
  ghost predicate Kept(items0: seq<Tx>, items: seq<Tx>, save: seq<Tx>, drop: seq<Tx>, all: set<Tx>) {
    forall t :: t in all ==> Entries(items0, t) == Entries(items, t) + Entries(save, t) + Entries(drop, t)
  }

  lemma PopEntries(h: seq<Tx>, r: seq<Tx>, x: Tx)
    requires multiset(h) == multiset(r) + multiset{x}
    ensures forall t :: Entries(h, t) == Entries(r, t) + (if t == x then 1 else 0)
  {}

  lemma AppendEntries(s: seq<Tx>, x: Tx)
    ensures forall t :: Entries(s + [x], t) == Entries(s, t) + (if t == x then 1 else 0)
  {}

  lemma HasEntries(s: seq<Tx>, t: Tx)
    ensures t in s <==> 0 < Entries(s, t)
  {
    assert t in s <==> t in multiset(s);
  }

  lemma PassStep(items0: seq<Tx>, items: seq<Tx>, rest: seq<Tx>, save: seq<Tx>, drop: seq<Tx>, all: set<Tx>, tx: Tx)
    requires Kept(items0, items, save, drop, all) && multiset(items) == multiset(rest) + multiset{tx}
    ensures tx !in all ==> Kept(items0, rest, save, drop, all)
    ensures Kept(items0, rest, save + [tx], drop, all) && Kept(items0, rest, save, drop + [tx], all)
  {
    PopEntries(items, rest, tx);
    AppendEntries(save, tx);
    AppendEntries(drop, tx);
  }

  lemma NothingPassed(items: seq<Tx>, all: set<Tx>)
    ensures Kept(items, items, [], [], all)
  {}

  /** A list has as many entries as elements exactly if none is listed twice. */
  lemma {:induction false} ListedOnceIff(s: seq<Tx>)
    ensures |s| == |Elements(s)| <==> forall t :: Entries(s, t) <= 1
  {
    if s != [] {
      var init, x := s[..|s| - 1], s[|s| - 1];
      assert s == init + [x];
      AppendEntries(init, x);
      ListedOnceIff(init);
      ElementsSize(init);
      HasEntries(init, x);
      assert Elements(s) == Elements(init) + {x};
      if x in init {
        assert Elements(s) == Elements(init);
        assert Entries(s, x) > 1;
      } else {
        forall t ensures Entries(init, t) <= 1 <==> Entries(s, t) <= 1 {
          if t == x { HasEntries(init, x); }
        }
      }
    }
  }

  lemma PassEnds(items0: seq<Tx>, stales0: int, items: seq<Tx>, stales: int,
                 save: seq<Tx>, drop: seq<Tx>, all: set<Tx>, locals: set<Address>)
    requires Passing(items0, stales0, items, stales, save, drop, all, locals) && save == []
    ensures Drift(items, stales, all - Elements(drop)) == Drift(items0, stales0, all) + |drop| - |Elements(drop)|
    ensures Sound(items0, stales0, all) ==> Sound(items, stales, all - Elements(drop))
    ensures |Elements(drop)| <= |drop|
  {
    assert Elements(drop) <= all;
    ElementsSize(drop);
  }

  lemma {:induction false} ElementsSize<T>(s: seq<T>)
    ensures |Elements(s)| <= |s|
  {
    if s != [] {
      ElementsSize(s[1..]);
      assert s == [s[0]] + s[1..];
      assert Elements(s) == {s[0]} + Elements(s[1..]);
    }
  }

  lemma CapEntries(items0: seq<Tx>, items: seq<Tx>, save: seq<Tx>, drop: seq<Tx>, all: set<Tx>, locals: set<Address>, threshold: nat)
    requires Kept(items0, items, save, drop, all)
    requires forall t :: t in drop ==> t in all && t.price < threshold && t.sender !in locals
    requires forall t :: t in save || (t in items && t in all) ==> threshold <= t.price || t.sender in locals
    ensures forall t :: Entries(drop, t) == if t in all && t.price < threshold && t.sender !in locals then Entries(items0, t) else 0
  {
    forall t
      ensures Entries(drop, t) == if t in all && t.price < threshold && t.sender !in locals then Entries(items0, t) else 0
    {
      HasEntries(drop, t);
      HasEntries(save, t);
      HasEntries(items, t);
    }
  }

  class PricedList {
    var items: seq<Tx>
    var stales: int

    ghost predicate Valid()
      reads this
    {
      Ordered(items, PriceLe)
    }

    constructor ()
      ensures Valid() && items == [] && stales == 0
    {
      items, stales := [], 0;
    }

    method Put(tx: Tx)
      requires Valid()
      modifies this`items
      ensures Valid() && |items| == |old(items)| + 1 && forall t :: t in items <==> t in old(items) || t == tx
      ensures multiset(items) == multiset(old(items)) + multiset{tx}
    {
      PriceOrder();
      items := Push(items, tx, PriceLe);
      SplitMembers(items, old(items), tx);
    }

    /** Counts one removal; past a quarter of the heap, rebuilds it from the pool. */
    method Removed(all: set<Tx>, ghost gone: Tx)
      requires Valid()
      modifies this
      ensures Valid()
      ensures if old(stales) + 1 <= |old(items)| / 4 then items == old(items) && stales == old(stales) + 1
              else stales == 0 && multiset(items) == multiset(all)
      ensures gone !in all && Sound(old(items), old(stales), all + {gone}) ==> Sound(items, stales, all)
    {
      stales := stales + 1;
      if stales <= |items| / 4 { return; }
      PriceOrder();
      var entries := Enumerate(all);
      stales := 0;
      items := Init(entries, PriceLe);
      NoRepeats(items, all);
    }

    /** Puts the spared entries back. */
    method Restore(save: seq<Tx>)
      requires Valid()
      modifies this`items
      ensures Valid() && |items| == |old(items)| + |save| && forall t :: t in items <==> t in old(items) || t in save
      ensures multiset(items) == multiset(old(items)) + multiset(save)
    {
      for i := 0 to |save|
        invariant Valid() && |items| == |old(items)| + i && forall t :: t in items <==> t in old(items) || t in save[..i]
        invariant multiset(items) == multiset(old(items)) + multiset(save[..i])
      {
        Put(save[i]);
        assert save[..i + 1] == save[..i] + [save[i]];
      }
      assert save[..|save|] == save;
    }

    /** Takes entries from the front: stale ones vanish, local ones are spared, remote ones below the threshold are dropped. */
    method SweepBelow(threshold: nat, all: set<Tx>, locals: set<Address>) returns (save: seq<Tx>, drop: seq<Tx>)
      requires Valid()
      modifies this
      ensures Passing(old(items), old(stales), items, stales, save, drop, all, locals) && Kept(old(items), items, save, drop, all)
      ensures forall t :: t in drop ==> t in all && t.price < threshold && t.sender !in locals
      ensures forall t :: t in save || (t in items && t in all) ==> threshold <= t.price || t.sender in locals
    {
      hide Kept;
      PriceOrder();
      drop, save := [], [];
      NothingPassed(items, all);
      while items != []
        invariant Passing(old(items), old(stales), items, stales, save, drop, all, locals)
        invariant forall t :: t in drop ==> t.price < threshold
        invariant forall t :: t in save ==> t.price < threshold && t.sender in locals
        invariant Kept(old(items), items, save, drop, all)
        decreases |items|
      {
        var tx, rest := Pop(items, PriceLe);
        SplitMembers(items, rest, tx);
        PassStep(old(items), items, rest, save, drop, all, tx);
        items := rest;
        if tx !in all {
          stales := stales - 1;
        } else if threshold <= tx.price {
          save := save + [tx];
          break;
        } else if tx.sender in locals {
          save := save + [tx];
        } else {
          drop := drop + [tx];
        }
      }
    }

    /**
     Drops from the heap every remote entry below the threshold and returns it. With a sound heap these
     are exactly the pool's remote transactions below the threshold. A transaction is returned once for
     every entry it has, and the count of live entries drifts exactly if one of them has several.
     */
    method Cap(threshold: nat, all: set<Tx>, locals: set<Address>) returns (drop: seq<Tx>)
      requires Valid()
      modifies this
      ensures Valid()
      ensures Sound(old(items), old(stales), all) ==>
                && Sound(items, stales, all - Elements(drop))
                && Elements(drop) == set t | t in all && t.price < threshold && t.sender !in locals
      ensures forall t :: Entries(drop, t) == if t in all && t.price < threshold && t.sender !in locals then Entries(old(items), t) else 0
      ensures Drift(items, stales, all - Elements(drop)) == Drift(old(items), old(stales), all) + |drop| - |Elements(drop)|
      ensures Drift(items, stales, all - Elements(drop)) == Drift(old(items), old(stales), all)
        <==> forall t :: t in all && t.price < threshold && t.sender !in locals ==> Entries(old(items), t) <= 1
    {
      hide Kept, Entries;
      var save;
      save, drop := SweepBelow(threshold, all, locals);
      CapEntries(old(items), items, save, drop, all, locals, threshold);
      ListedOnceIff(drop);
      Restore(save);
      PassEnds(old(items), old(stales), items, stales, [], drop, all, locals);
    }

    /** With a sound heap, a remote transaction is underpriced when no pooled one is cheaper. */
    method Underpriced(tx: Tx, all: set<Tx>, locals: set<Address>) returns (under: bool)
      requires Valid()
      modifies this
      ensures Valid() && Drift(items, stales, all) == Drift(old(items), old(stales), all)
      ensures Kept(old(items), items, [], [], all)
      ensures Sound(old(items), old(stales), all) ==>
                && Sound(items, stales, all)
                && (under <==> tx.sender !in locals && all != {} && forall t :: t in all ==> tx.price <= t.price)
    {
      hide Kept;
      NothingPassed(items, all);
      if tx.sender in locals { return false; }
      PriceOrder();
      while items != [] && items[0] !in all
        invariant Passing(old(items), old(stales), items, stales, [], [], all, locals)
        invariant Kept(old(items), items, [], [], all)
        decreases |items|
      {
        var dead, rest := Pop(items, PriceLe);
        SplitMembers(items, rest, dead);
        PassStep(old(items), items, rest, [], [], all, dead);
        stales, items := stales - 1, rest;
      }
      if items == [] { return false; }
      under := tx.price <= items[0].price;
      forall i | 0 <= i < |items|
        ensures items[0].price <= items[i].price
      {
        FrontIsLeast(items, i, PriceLe);
      }
    }

    /** Takes entries from the front until `count` remote ones are dropped: stale ones vanish, local ones are spared. */
    method SweepRemote(count: nat, all: set<Tx>, locals: set<Address>) returns (save: seq<Tx>, drop: seq<Tx>)
      requires Valid()
      modifies this
      ensures Passing(old(items), old(stales), items, stales, save, drop, all, locals) && Kept(old(items), items, save, drop, all)
      ensures |drop| <= count && (|drop| < count ==> items == [])
      ensures forall t :: t in save ==> t.sender in locals
      ensures forall d, t :: d in drop && t in items ==> PriceLe(d, t)
    {
      hide Kept;
      PriceOrder();
      drop, save := [], [];
      NothingPassed(items, all);
      var left: nat := count;
      while items != [] && 0 < left
        invariant Passing(old(items), old(stales), items, stales, save, drop, all, locals)
        invariant left + |drop| == count
        invariant forall t :: t in save ==> t.sender in locals
        invariant forall d, t :: d in drop && t in items ==> PriceLe(d, t)
        invariant Kept(old(items), items, save, drop, all)
        decreases |items|
      {
        var tx, rest := Pop(items, PriceLe);
        SplitMembers(items, rest, tx);
        PassStep(old(items), items, rest, save, drop, all, tx);
        items := rest;
        if tx !in all {
          stales := stales - 1;
        } else if tx.sender in locals {
          save := save + [tx];
        } else {
          drop, left := drop + [tx], left - 1;
        }
      }
    }

    /**
     Drops up to `count` remote entries, cheapest first. With a sound heap, no remote transaction
     left in the pool is worse than a dropped one, and falling short means no remote one is left.
     A transaction can be returned as often as it has entries; the count of live entries drifts only
     then, and if everything remote is dropped, it drifts exactly then.
     */
    method Discard(count: nat, all: set<Tx>, locals: set<Address>) returns (drop: seq<Tx>)
      requires Valid()
      modifies this
      ensures Valid() && |drop| <= count && Elements(drop) <= all
      ensures forall t :: t in drop ==> t.sender !in locals
      ensures Sound(old(items), old(stales), all) ==>
                && Sound(items, stales, all - Elements(drop))
                && (forall d, t :: d in drop && t in all && t !in drop && t.sender !in locals ==> PriceLe(d, t))
                && (|drop| < count ==> forall t :: t in all && t.sender !in locals ==> t in drop)
                && (0 < count && (exists t :: t in all && t.sender !in locals) ==> drop != [])
      ensures forall t :: Entries(drop, t) <= if t in all && t.sender !in locals then Entries(old(items), t) else 0
      ensures forall t :: t in all && t.sender !in locals && (|drop| < count || exists d :: d in drop && !PriceLe(d, t)) ==>
                Entries(drop, t) == Entries(old(items), t)
      ensures Drift(items, stales, all - Elements(drop)) == Drift(old(items), old(stales), all) + |drop| - |Elements(drop)|
      ensures count <= 1 || NoneRepeated(old(items), all, locals) ==> |drop| == |Elements(drop)|
      ensures |drop| < count ==> (|drop| == |Elements(drop)| <==> NoneRepeated(old(items), all, locals))
    {
      hide Kept, Entries;
      var save;
      save, drop := SweepRemote(count, all, locals);
      DiscardEntries(old(items), items, save, drop, all, locals);
      ListedOnceIff(drop);
      if |drop| <= 1 { ShortOnce(drop); }
      Restore(save);
      PassEnds(old(items), old(stales), items, stales, [], drop, all, locals);
    }
  }

  lemma ShortOnce(s: seq<Tx>)
    requires |s| <= 1
    ensures |s| == |Elements(s)|
  {
    assert |s| == 1 ==> Elements(s) == {s[0]};
  }

  lemma DiscardEntries(items0: seq<Tx>, items: seq<Tx>, save: seq<Tx>, drop: seq<Tx>, all: set<Tx>, locals: set<Address>)
    requires Kept(items0, items, save, drop, all)
    requires forall t :: t in drop ==> t in all && t.sender !in locals
    requires forall t :: t in save ==> t.sender in locals
    requires forall d, t :: d in drop && t in items ==> PriceLe(d, t)
    ensures forall t :: Entries(drop, t) <= if t in all && t.sender !in locals then Entries(items0, t) else 0
    ensures forall t :: t in all && t.sender !in locals && (items == [] || exists d :: d in drop && !PriceLe(d, t)) ==>
              Entries(drop, t) == Entries(items0, t)
  {
    forall t
      ensures Entries(drop, t) <= if t in all && t.sender !in locals then Entries(items0, t) else 0
      ensures t in all && t.sender !in locals && (items == [] || exists d :: d in drop && !PriceLe(d, t)) ==>
                Entries(drop, t) == Entries(items0, t)
    {
      HasEntries(drop, t);
      HasEntries(save, t);
      HasEntries(items, t);
    }
  }

  /** A priced transaction of one remote account. */
  function Sample(nonce: nat, price: nat): Tx { Tx(1, EMPTY_ADDRESS, nonce, price, 21000, 0, 0, Some(2), [], 0) }

  function Samples(): set<Tx> { {Sample(1, 2), Sample(2, 2), Sample(3, 2)} }

  lemma SampleSizes()
    ensures Sample(0, 1) !in Samples() && |Samples()| == 3 && |Samples() + {Sample(0, 1)}| == 4
  {
    assert Samples() - {Sample(1, 2)} - {Sample(2, 2)} == {Sample(3, 2)};
  }

  lemma TwoEntries(drop: seq<Tx>, t: Tx)
    requires forall u :: Entries(drop, u) == if u == t then 2 else 0
    ensures |drop| == 2 && Elements(drop) == {t}
  {
    forall u ensures multiset(drop)[u] == multiset{t, t}[u] { assert Entries(drop, u) == multiset(drop)[u]; }
    assert multiset(drop) == multiset{t, t};
    assert |drop| == |multiset(drop)|;
    forall u ensures u in drop <==> u == t { HasEntries(drop, u); }
  }

  /** Four transactions are listed, the cheapest leaves and comes back while its first entry is still in the heap. */
  method RepeatEntry() returns (list: PricedList)
    ensures fresh(list) && list.Valid() && list.stales == 1 && |list.items| == 5
    ensures multiset(list.items) == multiset(Samples()) + multiset{Sample(0, 1), Sample(0, 1)}
  {
    list := new PricedList();
    list.Put(Sample(0, 1));
    list.Put(Sample(1, 2));
    list.Put(Sample(2, 2));
    list.Put(Sample(3, 2));
    list.Removed(Samples(), Sample(0, 1));
    list.Put(Sample(0, 1));
    assert multiset(Samples()) == multiset{Sample(1, 2), Sample(2, 2), Sample(3, 2)};
  }

  /** A run that drifts: a cap drops such a transaction twice. */
  method DriftRun() returns (list: PricedList, ghost all: set<Tx>)
    ensures list.Valid() && Sound(list.items, list.stales, all) && Drift(list.items, list.stales, all) == 1
  {
    list := RepeatEntry();
    var t, pool := Sample(0, 1), Samples() + {Sample(0, 1)};
    SampleSizes();
    assert Sound(list.items, list.stales, pool) by {
      forall u | u in pool ensures u in list.items { HasEntries(list.items, u); }
    }
    assert Entries(list.items, t) == 2;
    var drop := list.Cap(2, pool, {});
    TwoEntries(drop, t);
    all := pool - Elements(drop);
  }
}
