/**
 The fairness rule of the pending limit, on values: which accounts are being cut, to what common
 length, and why every unpenalised account is no longer than that.
 */
module Equalizing {
  import opened Transactions
  import opened NonceItems
  import opened SortedMaps
  import opened TxLists
  import opened PoolStates

  function Len(m: Lists, a: Address): nat {
    |ItemsOf(m, a)|
  }

  ghost predicate Distinct(s: seq<Address>) {
    forall i, j :: 0 <= i < j < |s| ==> s[i] != s[j]
  }

  lemma DistinctSplit(s: seq<Address>, i: nat)
    requires Distinct(s) && i < |s|
    ensures s[i] !in s[..i] && s[i] !in s[i + 1..]
    ensures s[..i + 1] == s[..i] + [s[i]] && s[i..] == [s[i]] + s[i + 1..]
  {}

  /** Every list is cut down to its lowest nonces, and none appears or disappears. */
  ghost predicate CutFrom(m0: Lists, m: Lists) {
    forall a {:trigger At(a)} :: At(a) ==> (a in m <==> a in m0) && ItemsOf(m, a) == Capped(ItemsOf(m0, a), Len(m, a))
  }

  lemma CutReflexive(m: Lists)
    ensures CutFrom(m, m)
  {
    forall a | At(a)
      ensures ItemsOf(m, a) == Capped(ItemsOf(m, a), Len(m, a))
    {
      CapNothing(ItemsOf(m, a), Len(m, a));
    }
  }

  lemma CutTransitive(m0: Lists, m1: Lists, m2: Lists)
    requires CutFrom(m0, m1) && CutFrom(m1, m2)
    ensures CutFrom(m0, m2)
  {
    forall a | At(a)
      ensures (a in m2 <==> a in m0) && ItemsOf(m2, a) == Capped(ItemsOf(m0, a), Len(m2, a))
    {
      CappedSize(ItemsOf(m1, a), Len(m2, a));
      CapCap(ItemsOf(m0, a), Len(m1, a), Len(m2, a));
    }
  }

  /** Every list keeps only its lowest nonces; it may vanish altogether. */
  ghost predicate ShedFrom(m0: Lists, m: Lists) {
    forall a {:trigger At(a)} :: At(a) ==> ItemsOf(m, a) == Capped(ItemsOf(m0, a), Len(m, a)) && Len(m, a) <= Len(m0, a)
  }

  lemma ShedReflexive(m: Lists)
    ensures ShedFrom(m, m)
  {
    forall a | At(a)
      ensures ItemsOf(m, a) == Capped(ItemsOf(m, a), Len(m, a))
    {
      CapNothing(ItemsOf(m, a), Len(m, a));
    }
  }

  /** Shortening one account's list to its k lowest nonces. */
  lemma ShedOne(m0: Lists, m: Lists, m': Lists, a: Address, k: nat)
    requires ShedFrom(m0, m) && SameElsewhere(m, m', a) && k <= Len(m, a) && ItemsOf(m', a) == Capped(ItemsOf(m, a), k)
    ensures ShedFrom(m0, m') && Len(m', a) == k && Total(m') == Total(m) - Len(m, a) + k
  {
    TotalChange(m, m', a);
    CappedSize(ItemsOf(m, a), k);
    forall b | At(b)
      ensures ItemsOf(m', b) == Capped(ItemsOf(m0, b), Len(m', b)) && Len(m', b) <= Len(m0, b)
    {
      if b == a { CapCap(ItemsOf(m0, a), Len(m, a), k); }
    }
  }

  /** The remote accounts with more than their guaranteed slots. */
  ghost predicate Spams(m: Lists, locals: set<Address>, slots: nat, a: Address) {
    a in m && a !in locals && slots < Len(m, a)
  }

  /**
   The state of the cutting: `offenders` in the order they were taken from the spam queue, the
   first `pen` of them cut to the common length `level`, everybody else untouched and, if remote,
   no longer than `level`.
   */
  ghost predicate Levelled(m0: Lists, m: Lists, locals: set<Address>, slots: nat, limit: nat,
                           offenders: seq<Address>, spammers: set<Address>, level: nat, pen: nat) {
    && pen <= |offenders| && Distinct(offenders) && (forall a :: a in offenders ==> a !in spammers)
    && (forall a :: Spams(m0, locals, slots, a) <==> a in offenders || a in spammers)
    && (forall a :: a !in offenders[..pen] ==> Len(m, a) == Len(m0, a))
    && (forall a :: a in offenders[..pen] ==> Len(m, a) == level < Len(m0, a))
    && (offenders != [] ==> slots <= level && forall a :: a in m0 && a !in locals ==> Len(m, a) <= level)
    && (0 < pen ==> limit < Total(m) + pen)
  }

  /** All offenders have the same length. */
  ghost predicate AllAt(m: Lists, offenders: seq<Address>, level: nat) {
    forall a :: a in offenders ==> Len(m, a) == level
  }

  /** Taking the longest remaining account from the spam queue. */
  lemma TakeOffender(m0: Lists, m: Lists, locals: set<Address>, slots: nat, limit: nat,
                     offenders: seq<Address>, spammers: set<Address>, level: nat, pen: nat, o: Address)
    requires Levelled(m0, m, locals, slots, limit, offenders, spammers, level, pen)
    requires o in spammers && forall b :: b in spammers ==> Len(m, b) <= Len(m, o)
    ensures slots < Len(m, o) == Len(m0, o) && o in m0 && o !in offenders
    ensures offenders != [] ==> Len(m, o) <= level
    ensures Levelled(m0, m, locals, slots, limit, offenders + [o], spammers - {o}, if offenders == [] then Len(m, o) else level, pen)
  {
    assert Spams(m0, locals, slots, o);
    var grown := offenders + [o];
    assert grown[..pen] == offenders[..pen];
    forall a
      ensures Spams(m0, locals, slots, a) <==> a in grown || a in spammers - {o}
    {
      assert a in grown <==> a in offenders || a == o;
    }
    if offenders == [] {
      forall a | a in m0 && a !in locals
        ensures Len(m, a) <= Len(m, o)
      {
        if Spams(m0, locals, slots, a) { assert a in spammers; }
      }
    }
  }

  /** One round: each of the first `k` offenders, all at `level`, loses its highest nonce. */
  lemma CutRound(m0: Lists, m: Lists, m': Lists, locals: set<Address>, slots: nat, limit: nat,
                 offenders: seq<Address>, spammers: set<Address>, level: nat, pen: nat, k: nat)
    requires Levelled(m0, m, locals, slots, limit, offenders, spammers, level, pen) && pen <= k <= |offenders| && 0 < k
    requires AllAt(m, offenders[..k], level) && slots < level
    requires forall a :: a in offenders[k..] || a in spammers ==> Len(m, a) < level
    requires forall a :: a in offenders[..k] ==> Len(m', a) == level - 1
    requires forall a :: a !in offenders[..k] ==> Len(m', a) == Len(m, a)
    requires limit < Total(m) && Total(m') == Total(m) - k
    ensures Levelled(m0, m', locals, slots, limit, offenders, spammers, level - 1, k)
    ensures AllAt(m', offenders[..k], level - 1)
  {}

  lemma StartLevelled(m: Lists, locals: set<Address>, slots: nat, limit: nat, spammers: set<Address>)
    requires spammers == set a | a in m && a !in locals && slots < |m[a].items|
    ensures Levelled(m, m, locals, slots, limit, [], spammers, 0, 0) && AllAt(m, [], 0)
  {}

  /** The account's list is at least as long as any other's in the set. */
  ghost predicate Longest(m: Lists, s: set<Address>, o: Address) {
    o in s && forall b :: b in s ==> Len(m, b) <= Len(m, o)
  }

  lemma {:induction false} LongestExists(m: Lists, s: set<Address>) returns (o: Address)
    requires s != {}
    ensures Longest(m, s, o)
  {
    hide Len;
    var x :| x in s;
    o := x;
    if s != {x} {
      var best := LongestExists(m, s - {x});
      if Len(m, x) < Len(m, best) { o := best; }
    }
  }

  lemma OffendersListed(m0: Lists, m: Lists, locals: set<Address>, slots: nat, limit: nat,
                        offenders: seq<Address>, spammers: set<Address>, level: nat, pen: nat)
    requires Levelled(m0, m, locals, slots, limit, offenders, spammers, level, pen) && CutFrom(m0, m)
    ensures Distinct(offenders) && pen <= |offenders| && (offenders != [] ==> slots <= level)
    ensures forall a :: a in offenders ==> a in m && Len(m, a) <= level
    ensures forall a :: a in spammers ==> a in m
  {
    forall a | a in offenders || a in spammers
      ensures a in m && (a in offenders ==> Len(m, a) <= level)
    {
      assert Spams(m0, locals, slots, a);
      assert At(a);
    }
  }

  lemma NewestApart(m0: Lists, m: Lists, locals: set<Address>, slots: nat, limit: nat,
                    offenders: seq<Address>, spammers: set<Address>, level: nat, pen: nat)
    requires Levelled(m0, m, locals, slots, limit, offenders, spammers, level, pen) && offenders != []
    ensures offenders[|offenders| - 1] !in offenders[..|offenders| - 1]
    ensures forall a :: a in spammers ==> a !in offenders[..|offenders| - 1]
  {}

  lemma TrimIsCut(m: Lists, m': Lists, a: Address)
    requires SameElsewhere(m, m', a) && a in m && a in m' && 0 < Len(m, a)
    requires ItemsOf(m', a) == Capped(ItemsOf(m, a), Len(m, a) - 1) && Len(m', a) == Len(m, a) - 1
    ensures CutFrom(m, m') && Total(m') == Total(m) - 1
    ensures forall b :: b != a ==> Len(m', b) == Len(m, b) && (b in m' <==> b in m)
  {
    TotalChange(m, m', a);
    forall b | b != a
      ensures Len(m', b) == Len(m, b) && (b in m' <==> b in m)
    {
      assert At(b);
    }
    forall b | At(b)
      ensures (b in m' <==> b in m) && ItemsOf(m', b) == Capped(ItemsOf(m, b), Len(m', b))
    {
      CapNothing(ItemsOf(m, b), Len(m, b));
    }
  }

  /** What the rule promises once nothing more is cut. */
  ghost predicate Fair(m0: Lists, m: Lists, locals: set<Address>, slots: nat, limit: nat, level: nat, penalised: set<Address>) {
    && (forall a :: a in penalised <==> a in m0 && Len(m, a) < Len(m0, a))
    && (forall a :: a in penalised ==> a !in locals && Len(m, a) == level && slots <= level)
    && (penalised != {} ==> forall a :: a in m && a !in locals && a !in penalised ==> Len(m, a) <= level)
    && (penalised != {} ==> limit < Total(m) + |penalised|)
    && (Total(m) <= limit || forall a :: a in m && a !in locals ==> Len(m, a) <= slots)
  }

  lemma LevelledIsFair(m0: Lists, m: Lists, locals: set<Address>, slots: nat, limit: nat,
                       offenders: seq<Address>, spammers: set<Address>, level: nat, pen: nat)
    requires Levelled(m0, m, locals, slots, limit, offenders, spammers, level, pen) && CutFrom(m0, m)
    requires Total(m) <= limit || (spammers == {} && (offenders == [] || level == slots))
    ensures Fair(m0, m, locals, slots, limit, level, Elements(offenders[..pen]))
  {
    var penalised := Elements(offenders[..pen]);
    DistinctSize(offenders[..pen]);
    forall a | a in penalised
      ensures a in m0 && a !in locals && a in offenders
    {
      assert a in offenders;
      assert Spams(m0, locals, slots, a);
    }
    forall a | a in m
      ensures a in m0
    {
      assert At(a);
    }
    if limit < Total(m) {
      forall a | a in m && a !in locals
        ensures Len(m, a) <= slots
      {
        if offenders == [] { assert !Spams(m0, locals, slots, a); }
      }
    }
  }

  lemma {:induction false} DistinctSize(s: seq<Address>)
    requires Distinct(s)
    ensures |Elements(s)| == |s|
  {
    if s != [] {
      var front, last := s[..|s| - 1], s[|s| - 1];
      DistinctSize(front);
      assert s == front + [last];
      assert Elements(s) == Elements(front) + {last};
    }
  }
}
