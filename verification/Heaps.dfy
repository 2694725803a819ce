/**
 The binary heap that the nonce index and the price index are kept in (the container/heap
 discipline over a slice): a sequence whose element at i is no smaller than its parent's.
 Every operation keeps the order and permutes, adds or removes exactly one element.
 */
module Heaps {

  ghost predicate TotalPreorder<T(!new)>(le: (T, T) -> bool) {
    && (forall a, b :: le(a, b) || le(b, a))
    && (forall a, b, c :: le(a, b) && le(b, c) ==> le(a, c))
  }

  function Parent(i: int): int
    requires 0 < i
  {
    (i - 1) / 2
  }

  /** The heap edge into position i is in order. */
  predicate Edge<T>(h: seq<T>, i: int, le: (T, T) -> bool)
    requires 0 < i < |h|
  {
    le(h[Parent(i)], h[i])
  }

  ghost predicate Ordered<T>(h: seq<T>, le: (T, T) -> bool) {
    forall i :: 0 < i < |h| ==> Edge(h, i, le)
  }

  /** The front of a heap is a least element: what makes reading index[0] a minimum query. */
  lemma {:induction false} FrontIsLeast<T(!new)>(h: seq<T>, i: nat, le: (T, T) -> bool)
    requires TotalPreorder(le) && Ordered(h, le) && i < |h|
    ensures le(h[0], h[i])
  {
    if i > 0 {
      assert Edge(h, i, le);
      FrontIsLeast(h, Parent(i), le);
    }
  }

  function Swap<T>(h: seq<T>, i: nat, j: nat): (r: seq<T>)
    requires i < |h| && j < |h|
    ensures multiset(r) == multiset(h)
  {
    h[i := h[j]][j := h[i]]
  }

  /** Moves the element at k towards the root until its parent is no larger. */
  method Up<T(!new)>(h: seq<T>, k: nat, le: (T, T) -> bool) returns (r: seq<T>)
    requires TotalPreorder(le) && k < |h|
    requires forall i :: 0 < i < |h| && i != k ==> Edge(h, i, le)
    requires forall i :: 0 < i < |h| && Parent(i) == k && 0 < k ==> le(h[Parent(k)], h[i])
    ensures Ordered(r, le) && multiset(r) == multiset(h) && |r| == |h|
  {
    r := h;
    var i := k;
    while 0 < i && !Edge(r, i, le)
      invariant i < |r| == |h| && multiset(r) == multiset(h)
      invariant forall j :: 0 < j < |r| && j != i ==> Edge(r, j, le)
      invariant forall j :: 0 < j < |r| && Parent(j) == i && 0 < i ==> le(r[Parent(i)], r[j])
    {
      var p := Parent(i);
      var old_r := r;
      r := Swap(r, p, i);
      forall j | 0 < j < |r| && j != p
        ensures Edge(r, j, le)
      {
        if j != i { assert Edge(old_r, j, le); }
      }
      forall j | 0 < j < |r| && Parent(j) == p && 0 < p
        ensures le(r[Parent(p)], r[j])
      {
        assert Edge(old_r, p, le);
        if j != i { assert Edge(old_r, j, le); }
      }
      i := p;
    }
  }

  /** Every edge with a parent at or above `from`, other than those into or out of `hole`, is in order. */
  ghost predicate OrderedBut<T>(h: seq<T>, hole: nat, from: nat, le: (T, T) -> bool) {
    forall j :: 0 < j < |h| && from <= Parent(j) && Parent(j) != hole && j != hole ==> Edge(h, j, le)
  }

  /** The children of `hole` are no smaller than its parent. */
  ghost predicate Bridged<T>(h: seq<T>, hole: nat, from: nat, le: (T, T) -> bool)
    requires hole < |h|
  {
    0 < hole && from <= Parent(hole) ==>
      forall j :: 0 < j < |h| && Parent(j) == hole ==> le(h[Parent(hole)], h[j])
  }

  function SmallerChild<T(!new)>(h: seq<T>, i: nat, le: (T, T) -> bool): (c: nat)
    requires TotalPreorder(le) && 2 * i + 1 < |h|
    ensures 0 < c < |h| && Parent(c) == i && i < c
    ensures forall j :: 0 < j < |h| && Parent(j) == i ==> le(h[c], h[j])
  {
    if 2 * i + 2 < |h| && !le(h[2 * i + 1], h[2 * i + 2]) then 2 * i + 2 else 2 * i + 1
  }

  lemma SwapWithChild<T(!new)>(h: seq<T>, i: nat, c: nat, from: nat, le: (T, T) -> bool)
    requires TotalPreorder(le) && from <= i < |h| && 0 < c < |h| && Parent(c) == i
    requires OrderedBut(h, i, from, le) && Bridged(h, i, from, le)
    requires forall j :: 0 < j < |h| && Parent(j) == i ==> le(h[c], h[j])
    requires !le(h[i], h[c])
    ensures OrderedBut(Swap(h, i, c), c, from, le) && Bridged(Swap(h, i, c), c, from, le)
    ensures Edge(Swap(h, i, c), c, le)
    ensures 0 < i && from <= Parent(i) ==> Edge(Swap(h, i, c), i, le)
  {}

  /**
   Moves the element at k away from the root while a child is smaller. Only edges whose parent is
   at least `from` are kept in order, so that the same step serves building and repairing a heap.
   */
  method Down<T(!new)>(h: seq<T>, k: nat, from: nat, le: (T, T) -> bool) returns (r: seq<T>, moved: bool)
    requires TotalPreorder(le) && from <= k < |h|
    requires OrderedBut(h, k, from, le) && Bridged(h, k, from, le)
    ensures |r| == |h| && multiset(r) == multiset(h)
    ensures forall j :: 0 < j < |r| && from <= Parent(j) && (moved || j != k) ==> Edge(r, j, le)
    ensures !moved ==> r == h
  {
    r, moved := h, false;
    var i := k;
    while 2 * i + 1 < |r|
      invariant from <= k <= i < |r| == |h| && multiset(r) == multiset(h)
      invariant moved ==> 0 < i && Edge(r, i, le)
      invariant !moved ==> r == h && i == k
      invariant OrderedBut(r, i, from, le) && Bridged(r, i, from, le)
      decreases |r| - i
    {
      var c := SmallerChild(r, i, le);
      if le(r[i], r[c]) { break; }
      SwapWithChild(r, i, c, from, le);
      r := Swap(r, i, c);
      i, moved := c, true;
    }
  }

  method Push<T(!new)>(h: seq<T>, x: T, le: (T, T) -> bool) returns (r: seq<T>)
    requires TotalPreorder(le) && Ordered(h, le)
    ensures Ordered(r, le) && multiset(r) == multiset(h) + multiset{x} && |r| == |h| + 1
  {
    var g := h + [x];
    forall i | 0 < i < |g| && i != |h|
      ensures Edge(g, i, le)
    {
      assert Edge(h, i, le);
    }
    r := Up(g, |h|, le);
  }

  /** Removes the element at i, patching the hole with the last element (moved down or up). */
  method RemoveAt<T(!new)>(h: seq<T>, i: nat, le: (T, T) -> bool) returns (r: seq<T>)
    requires TotalPreorder(le) && Ordered(h, le) && i < |h|
    ensures Ordered(r, le) && multiset(h) == multiset(r) + multiset{h[i]} && |r| == |h| - 1
  {
    var n := |h| - 1;
    assert h == h[..n] + [h[n]];
    if i == n {
      r := h[..n];
      assert forall j :: 0 < j < n ==> Edge(h, j, le) ==> Edge(r, j, le);
      return;
    }
    var g := h[..n][i := h[n]];
    forall j | 0 < j < n && Parent(j) != i && j != i
      ensures Edge(g, j, le)
    {
      assert Edge(h, j, le);
    }
    forall j | 0 < j < n && Parent(j) == i && 0 < i
      ensures le(g[Parent(i)], g[j])
    {
      assert Edge(h, j, le) && Edge(h, i, le);
    }
    var moved;
    r, moved := Down(g, i, 0, le);
    if !moved {
      r := Up(r, i, le);
    }
  }

  /** Removes the front of the heap, which is a least element. */
  method Pop<T(!new)>(h: seq<T>, le: (T, T) -> bool) returns (x: T, r: seq<T>)
    requires TotalPreorder(le) && Ordered(h, le) && 0 < |h|
    ensures Ordered(r, le) && multiset(h) == multiset(r) + multiset{x} && |r| == |h| - 1
    ensures x == h[0] && forall y :: y in h ==> le(x, y)
  {
    x := h[0];
    r := RemoveAt(h, 0, le);
    forall y | y in h
      ensures le(x, y)
    {
      var i :| 0 <= i < |h| && h[i] == y;
      FrontIsLeast(h, i, le);
    }
  }

  /** Overwrites the front and lets the new element sink to its place. */
  method ReplaceFront<T(!new)>(h: seq<T>, x: T, le: (T, T) -> bool) returns (r: seq<T>)
    requires TotalPreorder(le) && Ordered(h, le) && h != []
    ensures Ordered(r, le) && multiset(r) == multiset(h[0 := x]) && |r| == |h|
  {
    var g := h[0 := x];
    forall j | 0 < j < |g| && Parent(j) != 0
      ensures Edge(g, j, le)
    {
      assert Edge(h, j, le);
    }
    var sunk, _ := Down(g, 0, 0, le);
    r := sunk;
  }

  /** Builds a heap bottom-up from an arbitrary slice. */
  method Init<T(!new)>(h: seq<T>, le: (T, T) -> bool) returns (r: seq<T>)
    requires TotalPreorder(le)
    ensures Ordered(r, le) && multiset(r) == multiset(h) && |r| == |h|
  {
    r := h;
    var i := |h| / 2;
    while 0 < i
      invariant 0 <= i <= |h| / 2 && |r| == |h| && multiset(r) == multiset(h)
      invariant forall j :: 0 < j < |r| && i <= Parent(j) ==> Edge(r, j, le)
    {
      i := i - 1;
      var moved;
      r, moved := Down(r, i, i, le);
    }
  }

  ghost predicate Sorted<T>(s: seq<T>, le: (T, T) -> bool) {
    forall i, j :: 0 <= i < j < |s| ==> le(s[i], s[j])
  }

  method Sort<T(!new)>(s: seq<T>, le: (T, T) -> bool) returns (r: seq<T>)
    requires TotalPreorder(le)
    ensures Sorted(r, le) && multiset(r) == multiset(s) && |r| == |s|
  {
    var h := Init(s, le);
    r := [];
    while h != []
      invariant Ordered(h, le) && multiset(r) + multiset(h) == multiset(s) && |r| + |h| == |s|
      invariant Sorted(r, le)
      invariant forall x, y :: x in r && y in h ==> le(x, y)
      decreases |h|
    {
      var x, g := Pop(h, le);
      assert forall y :: y in g ==> y in multiset(g) && y in multiset(h);
      h, r := g, r + [x];
    }
  }

  /** Lists a set in some order: ranging over a Go map. */
  method Enumerate<T(==)>(s: set<T>) returns (r: seq<T>)
    ensures multiset(r) == multiset(s) && |r| == |s|
  {
    r := [];
    var todo := s;
    while todo != {}
      invariant todo <= s && multiset(r) + multiset(todo) == multiset(s) && |r| + |todo| == |s|
      decreases todo
    {
      var x :| x in todo;
      r, todo := r + [x], todo - {x};
    }
  }
}
