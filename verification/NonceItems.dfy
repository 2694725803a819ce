/**
 What the nonce-indexed transaction map of an account means: a plain finite map from nonce to
 transaction, and the result of each operation on it as a non-recursive description of which
 nonces stay.
 */
module NonceItems {
  import opened Transactions

  type Items = map<nat, Tx>

  ghost predicate Keyed(m: Items) {
    forall n :: n in m ==> m[n].nonce == n
  }

  /** The transaction is stored, under its nonce. */
  predicate Has(m: Items, t: Tx) {
    t.nonce in m && m[t.nonce] == t
  }

  function Txs(m: Items): (s: set<Tx>) {
    set n | n in m :: m[n]
  }

  lemma TxsHas(m: Items, t: Tx)
    requires Keyed(m)
    ensures t in Txs(m) <==> Has(m, t)
  {}

  predicate IsLeast(lo: nat, s: set<nat>) {
    lo in s && forall n :: n in s ==> lo <= n
  }

  lemma {:induction false} HasLeast(s: set<nat>)
    requires s != {}
    ensures exists lo :: IsLeast(lo, s)
  {
    var x :| x in s;
    if s == {x} {
      assert IsLeast(x, s);
    } else {
      HasLeast(s - {x});
      var lo :| IsLeast(lo, s - {x});
      assert forall n :: n in s ==> n == x || n in s - {x};
      assert IsLeast(if x < lo then x else lo, s);
    }
  }

  function Lowest(s: set<nat>): (lo: nat)
    requires s != {}
    ensures IsLeast(lo, s)
  {
    HasLeast(s);
    var lo :| IsLeast(lo, s);
    lo
  }

  /** Forward: nonces below the threshold go. */
  function Forwarded(m: Items, threshold: nat): (r: Items) {
    map n | n in m && threshold <= n :: m[n]
  }

  /** The part that Forward takes away. */
  function Retired(m: Items, threshold: nat): (r: Items) {
    map n | n in m && n < threshold :: m[n]
  }

  /** Filter: transactions satisfying the condition go. */
  function Filtered(m: Items, drop: Tx -> bool): (r: Items) {
    map n | n in m && !drop(m[n]) :: m[n]
  }

  function Below(s: set<nat>, n: nat): (r: set<nat>) {
    set k | k in s && k < n
  }

  /** Cap: the lowest `limit` nonces stay, that is those with fewer than `limit` nonces below them. */
  function Capped(m: Items, limit: nat): (r: Items) {
    map n | n in m && |Below(m.Keys, n)| < limit :: m[n]
  }

  /** The nonce belongs to the gapless run that begins at the lowest nonce. */
  predicate InFirstRun(m: Items, n: nat) {
    n in m && forall k :: Lowest(m.Keys) <= k <= n ==> k in m
  }

  /** Ready: the run from the lowest nonce, provided it starts at or below `start`. */
  function ReadyRun(m: Items, start: nat): (r: Items) {
    map n | n in m && Lowest(m.Keys) <= start && InFirstRun(m, n) :: m[n]
  }

  function Without(m: Items, gone: Items): (r: Items) {
    map n | n in m && n !in gone :: m[n]
  }

  ghost predicate NonceSorted(s: seq<Tx>) {
    forall i, j :: 0 <= i < j < |s| ==> s[i].nonce < s[j].nonce
  }

  /** Flatten: all transactions in increasing nonce order. */
  ghost predicate IsFlat(s: seq<Tx>, m: Items) {
    NonceSorted(s) && forall t :: t in s <==> Has(m, t)
  }

  /** There is only one flattening, so being one determines the sequence. */
  lemma {:induction false} FlatUnique(s: seq<Tx>, s': seq<Tx>, m: Items)
    requires IsFlat(s, m) && IsFlat(s', m)
    ensures s == s'
    decreases |s|
  {
    assert forall t :: t in s <==> t in s';
    assert s' == [] || s'[0] in s';
    if s != [] {
      assert s[0] in s';
      assert s'[0] in s;
      var i :| 0 <= i < |s'| && s'[i] == s[0];
      var j :| 0 <= j < |s| && s[j] == s'[0];
      assert s[0] == s'[0];
      var rest := map n | n in m && n != s[0].nonce :: m[n];
      forall t
        ensures t in s[1..] <==> Has(rest, t)
        ensures t in s'[1..] <==> Has(rest, t)
      {
        assert t in s <==> t == s[0] || t in s[1..];
        assert t in s' <==> t == s'[0] || t in s'[1..];
      }
      FlatUnique(s[1..], s'[1..], rest);
      assert s == [s[0]] + s[1..] && s' == [s'[0]] + s'[1..];
    }
  }
}
