/** BlockChain: the canonical number index, the transaction lookup index and the heads, under extension, reorg and rewind. */
module BlockChains {
  import opened Transactions
  import opened Ancestry

  type Canon = map<nat, Hash>

  /** Up to b's number, the index holds exactly b's ancestors. */
  ghost predicate Canonical(blocks: Blocks, canon: Canon, b: Block) {
    forall n: nat :: n <= b.number ==>
      AncestorAt(blocks, b, n).Some? && n in canon && canon[n] == AncestorAt(blocks, b, n).value.hash
  }

  lemma CanonicalAncestor(blocks: Blocks, canon: Canon, b: Block, c: Block)
    requires Canonical(blocks, canon, b) && OnChain(blocks, b, c)
    ensures Canonical(blocks, canon, c)
  {
    forall n: nat | n <= c.number
      ensures AncestorAt(blocks, c, n).Some? && n in canon && canon[n] == AncestorAt(blocks, c, n).value.hash
    {
      AncestorOfAncestor(blocks, b, c, n);
    }
  }

  lemma CanonicalChild(blocks: Blocks, canon: Canon, p: Block, b: Block)
    requires Canonical(blocks, canon, p) && ParentOf(blocks, b) == Some(p)
    ensures Canonical(blocks, canon[b.number := b.hash], b)
  {
    forall n: nat | n < b.number
      ensures AncestorAt(blocks, b, n) == AncestorAt(blocks, p, n)
    {}
  }

  lemma CanonicalGrows(blocks: Blocks, blocks': Blocks, canon: Canon, b: Block)
    requires Canonical(blocks, canon, b) && forall h :: h in blocks ==> h in blocks' && blocks'[h] == blocks[h]
    ensures Canonical(blocks', canon, b) && forall n: nat :: n <= b.number ==> AncestorAt(blocks', b, n) == AncestorAt(blocks, b, n)
  {
    forall n: nat | n <= b.number
      ensures AncestorAt(blocks', b, n) == AncestorAt(blocks, b, n)
    {
      AncestorGrows(blocks, blocks', b, n);
    }
  }

  datatype Entry = Entry(block: Hash, number: nat, index: nat)

  type Lookup = map<TxHash, Entry>

  /** The entry points at an occurrence of the transaction on head's chain. */
  ghost predicate Located(blocks: Blocks, head: Block, t: TxHash, e: Entry) {
    && e.block in blocks && blocks[e.block].number == e.number && OnChain(blocks, head, blocks[e.block])
    && e.index < |blocks[e.block].txs| && blocks[e.block].txs[e.index] == t
  }

  /** The lookup maps exactly the transactions of head's chain, each to where it is. */
  ghost predicate LookupExact(blocks: Blocks, head: Block, lookup: Lookup) {
    && (forall t :: t in lookup ==> Located(blocks, head, t, lookup[t]))
    && (forall h, t :: h in blocks && OnChain(blocks, head, blocks[h]) && t in blocks[h].txs ==> t in lookup)
  }

  /** No transaction occurs in two blocks of head's chain. */
  ghost predicate NoneTwice(blocks: Blocks, head: Block) {
    forall g, h, t :: (g in blocks && h in blocks && OnChain(blocks, head, blocks[g]) && OnChain(blocks, head, blocks[h]) &&
                       t in blocks[g].txs && t in blocks[h].txs) ==> g == h
  }

  /** What writing a block's lookup entries does. */
  ghost predicate Wrote(lookup: Lookup, b: Block, lookup': Lookup) {
    && (forall t :: t in lookup' <==> t in lookup || t in b.txs)
    && (forall t :: t in b.txs ==> var e := lookup'[t]; e.block == b.hash && e.number == b.number && e.index < |b.txs| && b.txs[e.index] == t)
    && (forall t :: t in lookup && t !in b.txs ==> lookup'[t] == lookup[t])
  }

  method WriteTxLookupEntries(lookup: Lookup, b: Block) returns (lookup': Lookup)
    ensures Wrote(lookup, b, lookup')
  {
    lookup' := lookup;
    for i := 0 to |b.txs|
      invariant forall t :: t in lookup' <==> t in lookup || t in b.txs[..i]
      invariant forall t :: t in b.txs[..i] ==> var e := lookup'[t]; e.block == b.hash && e.number == b.number && e.index < i && b.txs[e.index] == t
      invariant forall t :: t in lookup && t !in b.txs[..i] ==> lookup'[t] == lookup[t]
    {
      assert b.txs[..i + 1] == b.txs[..i] + [b.txs[i]];
      lookup' := lookup'[b.txs[i] := Entry(b.hash, b.number, i)];
    }
    assert b.txs[..|b.txs|] == b.txs;
  }

  /** Extending the chain by one block extends the lookup by its transactions. */
  lemma LookupExtended(blocks: Blocks, p: Block, b: Block, lookup: Lookup, lookup': Lookup)
    requires Stored(blocks) && b.hash in blocks && blocks[b.hash] == b && ParentOf(blocks, b) == Some(p)
    requires LookupExact(blocks, p, lookup) && Wrote(lookup, b, lookup')
    ensures LookupExact(blocks, b, lookup')
  {}

  /** Writing the entries of a block that is already on the chain changes nothing that matters. */
  lemma LookupRewritten(blocks: Blocks, head: Block, b: Block, lookup: Lookup, lookup': Lookup)
    requires b.hash in blocks && blocks[b.hash] == b && OnChain(blocks, head, b)
    requires LookupExact(blocks, head, lookup) && Wrote(lookup, b, lookup')
    ensures LookupExact(blocks, head, lookup')
  {}

  /** The blocks of top's chain from top down to, not including, stop, newest first. */
  ghost predicate Descends(blocks: Blocks, top: Block, s: seq<Block>, stop: Block) {
    && OnChain(blocks, top, stop) && |s| == top.number - stop.number
    && forall i :: 0 <= i < |s| ==> AncestorAt(blocks, top, top.number - i) == Some(s[i])
  }

  lemma DescendOne(blocks: Blocks, top: Block, s: seq<Block>, stop: Block, p: Block)
    requires Descends(blocks, top, s, stop) && ParentOf(blocks, stop) == Some(p)
    ensures Descends(blocks, top, s + [stop], p)
  {
    AncestorOfAncestor(blocks, top, stop, p.number);
  }

  lemma DescendMembers(blocks: Blocks, top: Block, s: seq<Block>, stop: Block, b: Block)
    requires Descends(blocks, top, s, stop)
    ensures b in s <==> OnChain(blocks, top, b) && stop.number < b.number
  {
    if OnChain(blocks, top, b) && stop.number < b.number {
      assert s[top.number - b.number] == b;
    }
  }

  function TxsOf(s: seq<Block>): set<TxHash> {
    set b, t | b in s && t in b.txs :: t
  }

  /** What a successful reorg makes of the lookup. */
  ghost predicate Reindexed(lookup: Lookup, dropped: seq<Block>, added: seq<Block>, lookup': Lookup) {
    && (forall t :: t in lookup' <==> t in TxsOf(added) || (t in lookup && t !in TxsOf(dropped)))
    && (forall t :: t in lookup && t !in TxsOf(dropped) && t !in TxsOf(added) ==> lookup'[t] == lookup[t])
    && (forall t :: t in TxsOf(added) ==> PointsInto(added, t, lookup'[t]))
  }

  ghost predicate PointsInto(s: seq<Block>, t: TxHash, e: Entry) {
    exists b :: b in s && e.block == b.hash && e.number == b.number && e.index < |b.txs| && b.txs[e.index] == t
  }

  /** A database, two heads, where their chains part, and the blocks above it on either side. */
  ghost predicate Fork(blocks: Blocks, old_: Block, new_: Block, stop: Block, dropped: seq<Block>, added: seq<Block>) {
    && (forall b :: b in added || b in dropped ==> b.hash in blocks && blocks[b.hash] == b)
    && Descends(blocks, old_, dropped, stop) && Descends(blocks, new_, added, stop)
  }

  lemma ReorgedLocated(blocks: Blocks, old_: Block, new_: Block, stop: Block, dropped: seq<Block>, added: seq<Block>,
                       lookup: Lookup, lookup': Lookup, t: TxHash)
    requires Fork(blocks, old_, new_, stop, dropped, added)
    requires LookupExact(blocks, old_, lookup) && Reindexed(lookup, dropped, added, lookup') && t in lookup'
    ensures Located(blocks, new_, t, lookup'[t])
  {
    if t in TxsOf(added) {
      var b :| b in added && lookup'[t].block == b.hash && lookup'[t].number == b.number && lookup'[t].index < |b.txs| && b.txs[lookup'[t].index] == t;
      DescendMembers(blocks, new_, added, stop, b);
    } else {
      assert Located(blocks, old_, t, lookup[t]);
      var b := blocks[lookup[t].block];
      assert t in b.txs;
      DescendMembers(blocks, old_, dropped, stop, b);
      assert b !in dropped;
      SharedBelow(blocks, old_, new_, stop, b);
    }
  }

  lemma ReorgedComplete(blocks: Blocks, old_: Block, new_: Block, stop: Block, dropped: seq<Block>, added: seq<Block>,
                        lookup: Lookup, lookup': Lookup, h: Hash, t: TxHash)
    requires Fork(blocks, old_, new_, stop, dropped, added) && NoneTwice(blocks, old_)
    requires LookupExact(blocks, old_, lookup) && Reindexed(lookup, dropped, added, lookup')
    requires h in blocks && OnChain(blocks, new_, blocks[h]) && t in blocks[h].txs
    ensures t in lookup'
  {
    var b := blocks[h];
    DescendMembers(blocks, new_, added, stop, b);
    if b.number <= stop.number {
      SharedBelow(blocks, new_, old_, stop, b);
      if t in TxsOf(dropped) {
        var d :| d in dropped && t in d.txs;
        DescendMembers(blocks, old_, dropped, stop, d);
        assert false;
      }
    } else {
      assert b in added;
    }
  }

  /** Switching branches: the new branch's transactions enter, those only on the old branch leave. */
  lemma LookupReorged(blocks: Blocks, old_: Block, new_: Block, stop: Block, dropped: seq<Block>, added: seq<Block>, lookup: Lookup, lookup': Lookup)
    requires Fork(blocks, old_, new_, stop, dropped, added) && NoneTwice(blocks, old_)
    requires LookupExact(blocks, old_, lookup) && Reindexed(lookup, dropped, added, lookup')
    ensures LookupExact(blocks, new_, lookup')
  {
    forall t | t in lookup'
      ensures Located(blocks, new_, t, lookup'[t])
    {
      ReorgedLocated(blocks, old_, new_, stop, dropped, added, lookup, lookup', t);
    }
    forall h, t | h in blocks && OnChain(blocks, new_, blocks[h]) && t in blocks[h].txs
      ensures t in lookup'
    {
      ReorgedComplete(blocks, old_, new_, stop, dropped, added, lookup, lookup', h, t);
    }
  }

  /** Below a common ancestor two chains are one. */
  lemma SharedBelow(blocks: Blocks, a: Block, b: Block, stop: Block, c: Block)
    requires OnChain(blocks, a, stop) && OnChain(blocks, b, stop) && OnChain(blocks, a, c) && c.number <= stop.number
    ensures OnChain(blocks, b, c)
  {
    AncestorOfAncestor(blocks, a, stop, c.number);
    AncestorOfAncestor(blocks, b, stop, c.number);
  }

  ghost predicate Known(blocks: Blocks, b: Block) {
    b.hash in blocks && blocks[b.hash] == b
  }

  lemma {:induction false} FoundAbove(blocks: Blocks, b: Block, n: nat, m: nat)
    requires AncestorAt(blocks, b, n).Some? && n <= m <= b.number
    ensures AncestorAt(blocks, b, m).Some?
    decreases b.number
  {
    if m < b.number {
      FoundAbove(blocks, ParentOf(blocks, b).value, n, m);
    }
  }

  /** Nothing is found below a block whose parent is missing. */
  lemma NothingBelow(blocks: Blocks, top: Block, b: Block, n: nat)
    requires OnChain(blocks, top, b) && ParentOf(blocks, b).None? && n < b.number
    ensures AncestorAt(blocks, top, n).None?
  {
    AncestorOfAncestor(blocks, top, b, n);
  }

  /** Walks down from a block to a given number, collecting the blocks above it. */
  method Reduce(blocks: Blocks, top: Block, number: nat) returns (b: Option<Block>, above: seq<Block>)
    requires Stored(blocks) && Known(blocks, top) && number <= top.number
    ensures b == AncestorAt(blocks, top, number)
    ensures b.Some? ==> Known(blocks, b.value) && Descends(blocks, top, above, b.value) && forall c :: c in above ==> Known(blocks, c)
  {
    var cur := top;
    above := [];
    while cur.number != number
      invariant number <= cur.number && Known(blocks, cur) && Descends(blocks, top, above, cur)
      invariant forall c :: c in above ==> Known(blocks, c)
      decreases cur.number
    {
      above := above + [cur];
      var p := ParentOf(blocks, cur);
      if p.None? {
        NothingBelow(blocks, top, cur, number);
        return None, above;
      }
      DescendOne(blocks, top, above[..|above| - 1], cur, p.value);
      assert above == above[..|above| - 1] + [cur];
      cur := p.value;
    }
    b := Some(cur);
  }

  /**
   The search half of reorg: brings both branches to the same height and walks them down together.
   It fails exactly when the branches share no ancestor, and otherwise stops at the last shared one.
   */
  method FindFork(blocks: Blocks, old_: Block, new_: Block) returns (stop: Option<Block>, dropped: seq<Block>, added: seq<Block>)
    requires Stored(blocks) && Known(blocks, old_) && Known(blocks, new_)
    ensures stop.Some? <==> Meets(blocks, old_, new_)
    ensures stop.Some? ==> Known(blocks, stop.value) && Fork(blocks, old_, new_, stop.value, dropped, added)
    ensures stop.Some? ==> forall n: nat :: stop.value.number < n ==> !AgreeAt(blocks, old_, new_, n)
  {
    var height := if new_.number < old_.number then new_.number else old_.number;
    var o, n;
    o, dropped := Reduce(blocks, old_, height);
    n, added := Reduce(blocks, new_, height);
    if o.None? || n.None? {
      forall k: nat
        ensures !AgreeAt(blocks, old_, new_, k)
      {
        if k <= height && AgreeAt(blocks, old_, new_, k) {
          FoundAbove(blocks, old_, k, height);
          FoundAbove(blocks, new_, k, height);
        }
      }
      return None, dropped, added;
    }
    var a, b := o.value, n.value;
    while a.hash != b.hash
      invariant Known(blocks, a) && Known(blocks, b) && a.number == b.number <= height
      invariant Descends(blocks, old_, dropped, a) && Descends(blocks, new_, added, b)
      invariant forall c :: c in added || c in dropped ==> Known(blocks, c)
      invariant forall k: nat :: a.number < k ==> !AgreeAt(blocks, old_, new_, k)
      decreases a.number
    {
      var p, q := ParentOf(blocks, a), ParentOf(blocks, b);
      if p.None? || q.None? {
        forall k: nat
          ensures !AgreeAt(blocks, old_, new_, k)
        {
          if k < a.number {
            if p.None? { NothingBelow(blocks, old_, a, k); } else { NothingBelow(blocks, new_, b, k); }
          }
        }
        return None, dropped, added;
      }
      DescendOne(blocks, old_, dropped, a, p.value);
      DescendOne(blocks, new_, added, b, q.value);
      dropped, added := dropped + [a], added + [b];
      a, b := p.value, q.value;
    }
    assert AgreeAt(blocks, old_, new_, a.number);
    stop := Some(a);
  }

  class BlockChain {
    const genesis: Block
    var blocks: Blocks
    var canon: Canon
    var lookup: Lookup
    var head: Block
    var headerHead: Block
    var fastHead: Block
    var last: Block
    var fallback: bool

    /** The index is the head's ancestry down to genesis, and all three heads are the same block. */
    ghost predicate Valid()
      reads this
    {
      && Stored(blocks) && Known(blocks, head) && headerHead == head && fastHead == head
      && Canonical(blocks, canon, head) && OnChain(blocks, head, genesis) && genesis.number == 0
    }

    constructor (genesis: Block)
      requires genesis.number == 0
      ensures Valid() && head == genesis && this.genesis == genesis && LookupExact(blocks, head, lookup)
    {
      this.genesis := genesis;
      blocks := map[genesis.hash := genesis];
      canon := map[0 := genesis.hash];
      head, headerHead, fastHead, last, fallback := genesis, genesis, genesis, genesis, false;
      var entries := WriteTxLookupEntries(map[], genesis);
      lookup := entries;
    }

    /**
     insert: makes the block the head of everything and its number canonical. The last block is the
     highest ever inserted; reaching it again ends a fallback.
     */
    method Insert(b: Block)
      modifies this`canon, this`head, this`headerHead, this`fastHead, this`last, this`fallback
      ensures canon == old(canon)[b.number := b.hash] && head == b && headerHead == b && fastHead == b
      ensures if b.number >= old(last).number then last == b && !fallback else last == old(last) && fallback == old(fallback)
    {
      canon := canon[b.number := b.hash];
      head, headerHead, fastHead := b, b, b;
      if b.number >= last.number {
        last, fallback := b, false;
      }
    }

    /**
     reorg: rewrites the index along the branch of `b`, oldest block first, and the lookup for both
     branches. Without a shared ancestor it fails and has changed nothing.
     */
    method Reorg(b: Block) returns (ok: bool)
      requires Valid() && Known(blocks, b)
      modifies this`canon, this`lookup, this`head, this`headerHead, this`fastHead, this`last, this`fallback
      ensures ok <==> Meets(blocks, old(head), b)
      ensures !ok ==> canon == old(canon) && lookup == old(lookup) && head == old(head) && headerHead == old(headerHead) && fastHead == old(fastHead)
      ensures !ok ==> last == old(last) && fallback == old(fallback)
      ensures old(last).number <= last.number && (fallback ==> old(fallback))
      ensures ok ==> Canonical(blocks, canon, b) && OnChain(blocks, b, genesis)
      ensures ok && NoneTwice(blocks, old(head)) && LookupExact(blocks, old(head), old(lookup)) ==> LookupExact(blocks, b, lookup)
    {
      hide Canonical, LookupExact, NoneTwice, Reindexed, Wrote;
      var stop, dropped, added := FindFork(blocks, head, b);
      ok := stop.Some?;
      if !ok { return; }
      CanonicalAncestor(blocks, canon, head, stop.value);
      SharedBelow(blocks, head, b, stop.value, genesis);
      Adopt(b, stop.value, added);
      ghost var adopted := lookup;
      lookup := lookup - (TxsOf(dropped) - TxsOf(added));
      ReindexedAfter(old(lookup), adopted, dropped, added);
      if NoneTwice(blocks, old(head)) && LookupExact(blocks, old(head), old(lookup)) {
        LookupReorged(blocks, old(head), b, stop.value, dropped, added, old(lookup), lookup);
      }
    }

    /** Inserts a branch above an already canonical block, oldest block first. */
    method Adopt(b: Block, stop: Block, added: seq<Block>)
      requires Canonical(blocks, canon, stop) && Descends(blocks, b, added, stop)
      modifies this`canon, this`lookup, this`head, this`headerHead, this`fastHead, this`last, this`fallback
      ensures Canonical(blocks, canon, b) && Adopted(old(lookup), added, lookup)
      ensures old(last).number <= last.number && (fallback ==> old(fallback))
    {
      hide Canonical, Wrote;
      var i := |added|;
      ghost var tip := stop;
      NothingAdopted(lookup);
      while 0 < i
        invariant 0 <= i <= |added| && tip == (if i == |added| then stop else added[i])
        invariant Canonical(blocks, canon, tip) && Adopted(old(lookup), added[i..], lookup)
        invariant old(last).number <= last.number && (fallback ==> old(fallback))
      {
        i := i - 1;
        DescendParent(blocks, b, added, stop, i);
        CanonicalChild(blocks, canon, tip, added[i]);
        Insert(added[i]);
        ghost var before := lookup;
        lookup := WriteTxLookupEntries(lookup, added[i]);
        AdoptOne(old(lookup), added, i, before, lookup);
        tip := added[i];
      }
      assert added[0..] == added && added[|added|..] == [];
    }

    /**
     The chain-writing part of importing a block: extends the canonical chain, or switches to the
     block's branch. Whatever the outcome, the index stays the head's ancestry; on failure index,
     lookup and heads are what they were.
     */
    method WriteBlock(b: Block) returns (ok: bool)
      requires Valid() && (b.hash in blocks ==> blocks[b.hash] == b)
      requires b.parent in blocks ==> b.number == blocks[b.parent].number + 1
      modifies this`blocks, this`canon, this`lookup, this`head, this`headerHead, this`fastHead, this`last, this`fallback
      ensures Valid() && blocks == old(blocks)[b.hash := b]
      ensures ok <==> b.parent == old(head).hash || Meets(blocks, old(head), b)
      ensures if ok then head == b && head.number <= last.number
              else canon == old(canon) && lookup == old(lookup) && head == old(head) && last == old(last)
      ensures old(last).number <= last.number && (fallback ==> old(fallback))
      ensures ok && NoneTwice(blocks, old(head)) && old(LookupExact(blocks, head, lookup)) ==> LookupExact(blocks, head, lookup)
    {
      hide Canonical, LookupExact, NoneTwice, Wrote;
      blocks := blocks[b.hash := b];
      Grown(old(blocks), blocks, canon, lookup, head, genesis);
      if b.parent != head.hash {
        ok := Reorg(b);
        if !ok { return; }
        ghost var before := lookup;
        lookup := WriteTxLookupEntries(lookup, b);
        if LookupExact(blocks, b, before) { LookupRewritten(blocks, b, b, before, lookup); }
        CanonicalAgain(blocks, canon, b);
      } else {
        ok := true;
        assert ParentOf(blocks, b) == Some(head);
        CanonicalChild(blocks, canon, head, b);
        ghost var before := lookup;
        lookup := WriteTxLookupEntries(lookup, b);
        if LookupExact(blocks, head, before) { LookupExtended(blocks, head, b, before, lookup); }
      }
      Insert(b);
    }

    /**
     SetHead: rewinds to the head's ancestor at the given number, deleting every block above it on
     the way down and the index entries of those numbers.
     */
    method SetHead(number: nat)
      requires Valid()
      modifies this`blocks, this`canon, this`head, this`headerHead, this`fastHead
      ensures Valid()
      ensures Some(head) == old(AncestorAt(blocks, head, if number < head.number then number else head.number))
      ensures forall n :: n in canon <==> n in old(canon) && !(number < n <= old(head).number)
      ensures forall h :: h in blocks <==> h in old(blocks) && !(number < old(blocks)[h].number && OnChain(old(blocks), old(head), old(blocks)[h]))
    {
      hide Canonical;
      var height := headerHead.number;
      ghost var deleted: seq<Block> := [];
      var doomed: set<Hash> := {};
      SelfDescends(blocks, head);
      while number < headerHead.number
        invariant blocks == old(blocks) && canon == old(canon) && head == old(head)
        invariant Known(blocks, headerHead) && Descends(blocks, old(head), deleted, headerHead)
        invariant number <= headerHead.number || headerHead == old(head)
        invariant doomed == set b | b in deleted :: b.hash
        invariant forall b :: b in deleted ==> Known(blocks, b)
        decreases headerHead.number
      {
        ghost var b := headerHead;
        FoundBelow(blocks, canon, old(head), b);
        DescendOne(blocks, old(head), deleted, b, ParentOf(blocks, b).value);
        doomed := doomed + {headerHead.hash};
        deleted := deleted + [b];
        headerHead := GetBlock(blocks, headerHead.parent, headerHead.number - 1).value;
      }
      canon := map n | n in canon && !(number < n <= height) :: canon[n];
      blocks := blocks - doomed;
      if headerHead.number < head.number {
        head := headerHead;
      }
      fastHead := head;
      Rewound(old(blocks), blocks, old(canon), canon, old(head), head, genesis, number, deleted);
    }

    /**
     Rollback: steps the heads back over the listed hashes, last first. Reading past a missing
     parent fails; that takes genesis itself being listed.
     */
    method Rollback(chain: seq<Hash>) returns (ok: bool)
      requires Valid()
      modifies this`head, this`headerHead, this`fastHead
      ensures Valid() && OnChain(blocks, old(head), head)
      ensures !ok ==> genesis.hash in chain
      ensures ok ==> head == Back(blocks, old(head), chain)
      ensures ok ==> forall b :: OnChain(blocks, old(head), b) && head.number < b.number ==> b.hash in chain
    {
      hide Canonical;
      var i := |chain|;
      assert chain[..i] == chain;
      while 0 < i
        invariant 0 <= i <= |chain| && Known(blocks, head) && headerHead == head && fastHead == head
        invariant Back(blocks, old(head), chain) == Back(blocks, head, chain[..i])
        invariant OnChain(blocks, old(head), head)
        invariant forall b :: OnChain(blocks, old(head), b) && head.number < b.number ==> b.hash in chain
      {
        i := i - 1;
        ghost var b := head;
        assert chain[..i + 1][..i] == chain[..i];
        if 0 < head.number { FoundBelow(blocks, canon, old(head), head); }
        if headerHead.hash == chain[i] {
          var p := ParentOf(blocks, headerHead);
          if p.None? {
            AncestorOfAncestor(blocks, old(head), head, 0);
            RolledBack(blocks, canon, old(head), head, genesis);
            return false;
          }
          headerHead := p.value;
        }
        if fastHead.hash == chain[i] {
          fastHead := ParentOf(blocks, fastHead).value;
        }
        if head.hash == chain[i] {
          head := ParentOf(blocks, head).value;
          AncestorOfAncestor(blocks, old(head), b, head.number);
          forall c | OnChain(blocks, old(head), c) && head.number < c.number
            ensures c.hash in chain
          {
            if c.number == b.number { assert c == b; }
          }
        }
      }
      RolledBack(blocks, canon, old(head), head, genesis);
      ok := true;
    }
  }

  /** Stepping back from b over the listed hashes, last first. */
  function Back(blocks: Blocks, b: Block, chain: seq<Hash>): Block
    decreases |chain|
  {
    if chain == [] then b
    else
      var p := ParentOf(blocks, b);
      Back(blocks, if b.hash == chain[|chain| - 1] && p.Some? then p.value else b, chain[..|chain| - 1])
  }

  /** The i-th of the hashes is that of the block which has |chain| - 1 - i blocks between it and b. */
  predicate LeadsAt(blocks: Blocks, b: Block, chain: seq<Hash>, i: nat)
    requires |chain| <= b.number && i < |chain|
  {
    var c := AncestorAt(blocks, b, b.number - |chain| + 1 + i);
    c.Some? && c.value.hash == chain[i]
  }

  /** The hashes are those of the blocks that lead up to b, b last. */
  ghost predicate LeadsTo(blocks: Blocks, b: Block, chain: seq<Hash>) {
    |chain| <= b.number && forall i :: 0 <= i < |chain| ==> LeadsAt(blocks, b, chain, i)
  }

  /** Rolling back the blocks that lead up to the head lands on the block before them. */
  lemma {:induction false} BackBeforeRun(blocks: Blocks, b: Block, chain: seq<Hash>)
    requires LeadsTo(blocks, b, chain) && AncestorAt(blocks, b, b.number - |chain|).Some?
    ensures Some(Back(blocks, b, chain)) == AncestorAt(blocks, b, b.number - |chain|)
    decreases |chain|
  {
    if chain != [] {
      assert LeadsAt(blocks, b, chain, |chain| - 1);
      var p, init := ParentOf(blocks, b).value, chain[..|chain| - 1];
      forall i | 0 <= i < |init| ensures LeadsAt(blocks, p, init, i) {
        assert LeadsAt(blocks, b, chain, i);
      }
      BackBeforeRun(blocks, p, init);
    }
  }

  lemma RolledBack(blocks: Blocks, canon: Canon, head: Block, head': Block, genesis: Block)
    requires Canonical(blocks, canon, head) && OnChain(blocks, head, head') && OnChain(blocks, head, genesis) && genesis.number == 0
    ensures Canonical(blocks, canon, head') && OnChain(blocks, head', genesis)
  {
    CanonicalAncestor(blocks, canon, head, head');
    AncestorOfAncestor(blocks, head, head', genesis.number);
  }

  lemma SelfDescends(blocks: Blocks, b: Block)
    ensures Descends(blocks, b, [], b)
  {}

  lemma FoundBelow(blocks: Blocks, canon: Canon, head: Block, b: Block)
    requires Canonical(blocks, canon, head) && OnChain(blocks, head, b) && 0 < b.number
    ensures ParentOf(blocks, b).Some?
  {
    AncestorOfAncestor(blocks, head, b, b.number - 1);
  }

  lemma Rewound(blocks: Blocks, blocks': Blocks, canon: Canon, canon': Canon, head: Block, head': Block, genesis: Block, number: nat, deleted: seq<Block>)
    requires Stored(blocks) && Known(blocks, head) && Canonical(blocks, canon, head) && OnChain(blocks, head, genesis) && genesis.number == 0
    requires Descends(blocks, head, deleted, head') && Known(blocks, head') && head'.number == if number < head.number then number else head.number
    requires blocks' == blocks - (set b | b in deleted :: b.hash) && forall b :: b in deleted ==> Known(blocks, b)
    requires canon' == map n | n in canon && !(number < n <= head.number) :: canon[n]
    ensures Stored(blocks') && Known(blocks', head') && Canonical(blocks', canon', head') && OnChain(blocks', head', genesis)
    ensures forall h :: h in blocks' <==> h in blocks && !(number < blocks[h].number && OnChain(blocks, head, blocks[h]))
  {
    forall h | h in blocks
      ensures h in blocks' <==> !(number < blocks[h].number && OnChain(blocks, head, blocks[h]))
    {
      DescendMembers(blocks, head, deleted, head', blocks[h]);
    }
    CanonicalAncestor(blocks, canon, head, head');
    forall n: nat | n <= head'.number
      ensures AncestorAt(blocks', head', n) == AncestorAt(blocks, head', n)
    {
      AncestorKept(blocks, blocks', head', n);
    }
    AncestorOfAncestor(blocks, head, head', genesis.number);
  }

  /** Some blocks' entries were written over a lookup. */
  ghost predicate Adopted(lookup: Lookup, added: seq<Block>, lookup': Lookup) {
    && (forall t :: t in lookup' <==> t in lookup || t in TxsOf(added))
    && (forall t :: t in lookup && t !in TxsOf(added) ==> lookup'[t] == lookup[t])
    && (forall t :: t in TxsOf(added) ==> PointsInto(added, t, lookup'[t]))
  }

  lemma NothingAdopted(lookup: Lookup)
    ensures Adopted(lookup, [], lookup)
  {}

  lemma AdoptOne(lookup: Lookup, added: seq<Block>, i: nat, before: Lookup, after: Lookup)
    requires i < |added| && Adopted(lookup, added[i + 1..], before) && Wrote(before, added[i], after)
    ensures Adopted(lookup, added[i..], after)
  {
    var b, rest, s := added[i], added[i + 1..], added[i..];
    assert s == [b] + rest;
    forall t
      ensures t in TxsOf(s) <==> t in b.txs || t in TxsOf(rest)
    {}
    forall t | t in TxsOf(s)
      ensures PointsInto(s, t, after[t])
    {
      if t !in b.txs {
        assert PointsInto(rest, t, before[t]);
        var c :| c in rest && before[t].block == c.hash && before[t].number == c.number && before[t].index < |c.txs| && c.txs[before[t].index] == t;
        assert c in s;
      } else {
        assert b in s;
      }
    }
  }

  lemma ReindexedAfter(lookup: Lookup, adopted: Lookup, dropped: seq<Block>, added: seq<Block>)
    requires Adopted(lookup, added, adopted)
    ensures Reindexed(lookup, dropped, added, adopted - (TxsOf(dropped) - TxsOf(added)))
  {}

  lemma DescendParent(blocks: Blocks, top: Block, s: seq<Block>, stop: Block, i: nat)
    requires Descends(blocks, top, s, stop) && i < |s|
    ensures ParentOf(blocks, s[i]) == Some(if i + 1 < |s| then s[i + 1] else stop)
  {
    AncestorOfAncestor(blocks, top, s[i], s[i].number - 1);
  }

  lemma CanonicalAgain(blocks: Blocks, canon: Canon, b: Block)
    requires Canonical(blocks, canon, b)
    ensures Canonical(blocks, canon[b.number := b.hash], b)
  {}

  lemma {:induction false} AncestorKnown(blocks: Blocks, b: Block, n: nat)
    requires Stored(blocks) && Known(blocks, b) && AncestorAt(blocks, b, n).Some?
    ensures Known(blocks, AncestorAt(blocks, b, n).value)
    decreases b.number
  {
    if n < b.number {
      AncestorKnown(blocks, ParentOf(blocks, b).value, n);
    }
  }

  /** Storing one more block changes nothing about the head's chain. */
  lemma Grown(blocks: Blocks, blocks': Blocks, canon: Canon, lookup: Lookup, head: Block, genesis: Block)
    requires Stored(blocks) && Known(blocks, head) && Canonical(blocks, canon, head) && OnChain(blocks, head, genesis)
    requires Stored(blocks') && forall h :: h in blocks ==> h in blocks' && blocks'[h] == blocks[h]
    ensures Canonical(blocks', canon, head) && OnChain(blocks', head, genesis)
    ensures LookupExact(blocks, head, lookup) ==> LookupExact(blocks', head, lookup)
  {
    CanonicalGrows(blocks, blocks', canon, head);
    forall h | h in blocks' && OnChain(blocks', head, blocks'[h])
      ensures h in blocks
    {
      AncestorKnown(blocks, head, blocks'[h].number);
    }
  }
}
