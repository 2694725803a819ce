/** Blocks linked by parent hash, and the walk from a block towards genesis that gives them meaning. */
module Ancestry {
  import opened Transactions

  type Hash = nat
  const ZERO_HASH: Hash := 0
  type TxHash = nat

  datatype Block = Block(hash: Hash, parent: Hash, number: nat, txs: seq<TxHash>)

  type Blocks = map<Hash, Block>

  /** Blocks are stored under their own hash. */
  ghost predicate Stored(blocks: Blocks) {
    forall h :: h in blocks ==> blocks[h].hash == h
  }

  /** The database read by hash and number. */
  function GetBlock(blocks: Blocks, hash: Hash, number: int): Option<Block> {
    if hash in blocks && blocks[hash].number == number then Some(blocks[hash]) else None
  }

  function ParentOf(blocks: Blocks, b: Block): (p: Option<Block>)
    ensures p.Some? ==> p.value.number == b.number - 1 && 0 < b.number
  {
    GetBlock(blocks, b.parent, b.number - 1)
  }

  /** The ancestor of b (or b itself) with the given number, found by walking parents. */
  function AncestorAt(blocks: Blocks, b: Block, n: nat): (r: Option<Block>)
    ensures r.Some? ==> r.value.number == n <= b.number
    decreases b.number
  {
    if b.number < n then None
    else if b.number == n then Some(b)
    else
      var p := ParentOf(blocks, b);
      if p.None? then None else AncestorAt(blocks, p.value, n)
  }

  /** The block lies on the chain that ends in head. */
  predicate OnChain(blocks: Blocks, head: Block, b: Block) {
    AncestorAt(blocks, head, b.number) == Some(b)
  }

  /** Walking on from an ancestor is walking on from the block. */
  lemma {:induction false} AncestorOfAncestor(blocks: Blocks, b: Block, c: Block, n: nat)
    requires OnChain(blocks, b, c) && n <= c.number
    ensures AncestorAt(blocks, b, n) == AncestorAt(blocks, c, n)
    decreases b.number
  {
    if c.number < b.number {
      AncestorOfAncestor(blocks, ParentOf(blocks, b).value, c, n);
    }
  }

  /** More blocks in the database never change an ancestor that was found. */
  lemma {:induction false} AncestorGrows(blocks: Blocks, blocks': Blocks, b: Block, n: nat)
    requires forall h :: h in blocks ==> h in blocks' && blocks'[h] == blocks[h]
    requires AncestorAt(blocks, b, n).Some?
    ensures AncestorAt(blocks', b, n) == AncestorAt(blocks, b, n)
    decreases b.number
  {
    if n < b.number {
      AncestorGrows(blocks, blocks', ParentOf(blocks, b).value, n);
    }
  }

  /** Deleting blocks above b leaves its ancestors alone. */
  lemma {:induction false} AncestorKept(blocks: Blocks, blocks': Blocks, b: Block, n: nat)
    requires forall h :: h in blocks' ==> h in blocks && blocks'[h] == blocks[h]
    requires forall h :: h in blocks && blocks[h].number < b.number ==> h in blocks'
    ensures AncestorAt(blocks', b, n) == AncestorAt(blocks, b, n)
    decreases b.number
  {
    var p := ParentOf(blocks, b);
    if n < b.number && p.Some? {
      AncestorKept(blocks, blocks', p.value, n);
    }
  }

  /** Two blocks share an ancestor. */
  ghost predicate Meets(blocks: Blocks, a: Block, b: Block) {
    exists n: nat :: AgreeAt(blocks, a, b, n)
  }

  /** The two blocks' ancestors at n are there and are the same. */
  ghost predicate AgreeAt(blocks: Blocks, a: Block, b: Block, n: nat) {
    AncestorAt(blocks, a, n).Some? && AncestorAt(blocks, a, n) == AncestorAt(blocks, b, n)
  }
}
