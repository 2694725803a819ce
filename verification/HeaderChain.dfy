/** Ancestor lookup through the canonical index, the header query served to peers, and the EVM's block hash cache. */
module HeaderChains {
  import opened Transactions
  import opened Ancestry
  import BlockChains

  type Canon = BlockChains.Canon

  /** The database returns the zero hash for a number it has no canonical hash for. */
  function ReadCanonicalHash(canon: Canon, n: nat): Hash {
    if n in canon then canon[n] else ZERO_HASH
  }

  /** Headers are stored under their own non-zero hash, and only genesis may have a zero parent. */
  ghost predicate NonZero(headers: Blocks) {
    && Stored(headers) && ZERO_HASH !in headers
    && forall h :: h in headers && 0 < headers[h].number ==> headers[h].parent != ZERO_HASH
  }

  /** The index is one parent-linked chain from number 0 upwards. */
  ghost predicate ParentLinked(headers: Blocks, canon: Canon) {
    forall n :: n in canon ==>
      && canon[n] in headers && headers[canon[n]].number == n
      && (0 < n ==> n - 1 in canon && headers[canon[n]].parent == canon[n - 1])
  }

  /** What BlockChain keeps for every number up to its head is such a chain, if nothing is left above the head. */
  lemma CanonicalIsLinked(headers: Blocks, canon: Canon, head: Block)
    requires Stored(headers) && BlockChains.Known(headers, head)
    requires BlockChains.Canonical(headers, canon, head) && forall n :: n in canon ==> n <= head.number
    ensures ParentLinked(headers, canon)
  {
    forall n | n in canon
      ensures canon[n] in headers && headers[canon[n]].number == n
      ensures 0 < n ==> n - 1 in canon && headers[canon[n]].parent == canon[n - 1]
    {
      var b := AncestorAt(headers, head, n).value;
      BlockChains.AncestorKnown(headers, head, n);
      if 0 < n {
        AncestorOfAncestor(headers, head, b, n - 1);
      }
    }
  }

  /** The hash reached by walking k parents from the header with this hash and number. */
  function Walk(headers: Blocks, hash: Hash, number: int, k: nat): Option<Hash>
    decreases k
  {
    if k == 0 then Some(hash)
    else
      var h := GetBlock(headers, hash, number);
      if h.None? then None else Walk(headers, h.value.parent, number - 1, k - 1)
  }

  /** Walking by hash arrives at the ancestor. */
  lemma {:induction false} WalkIsAncestor(headers: Blocks, b: Block, n: nat)
    requires Stored(headers) && BlockChains.Known(headers, b) && AncestorAt(headers, b, n).Some?
    ensures Walk(headers, b.hash, b.number, b.number - n) == Some(AncestorAt(headers, b, n).value.hash)
    decreases b.number
  {
    if n < b.number {
      WalkIsAncestor(headers, ParentOf(headers, b).value, n);
    }
  }

  /** On the canonical chain, walking is counting down. */
  lemma {:induction false} CanonicalWalk(headers: Blocks, canon: Canon, number: nat, k: nat)
    requires ParentLinked(headers, canon) && number in canon && k <= number
    ensures number - k in canon && Walk(headers, canon[number], number, k) == Some(canon[number - k])
    decreases k
  {
    if k > 0 {
      CanonicalWalk(headers, canon, number - 1, k - 1);
    }
  }

  lemma {:induction false} WalkOn(headers: Blocks, hash: Hash, number: int, j: nat, k: nat)
    requires Walk(headers, hash, number, j).Some?
    ensures Walk(headers, hash, number, j + k) == Walk(headers, Walk(headers, hash, number, j).value, number - j, k)
    decreases j
  {
    if j > 0 {
      var h := GetBlock(headers, hash, number);
      WalkOn(headers, h.value.parent, number - 1, j - 1, k);
    }
  }

  /** The block k generations back is known by hash and canonical. */
  ghost predicate Meets(headers: Blocks, canon: Canon, hash: Hash, number: nat, k: nat) {
    k <= number && Walk(headers, hash, number, k) == Some(ReadCanonicalHash(canon, number - k))
  }

  /** Walking ends k generations back: there is the goal, the canonical chain, the end of the budget, or nothing. */
  ghost predicate Halts(headers: Blocks, canon: Canon, hash: Hash, number: nat, ancestor: nat, budget: nat, k: nat) {
    k == ancestor || k == budget || Meets(headers, canon, hash, number, k) || Walk(headers, hash, number, k).None?
  }

  /** What a lookup takes from the budget: nothing for a parent, else one unit for each block walked until the walk ends. */
  ghost predicate Costs(headers: Blocks, canon: Canon, hash: Hash, number: nat, ancestor: nat, budget: nat, cost: int) {
    if ancestor > number || ancestor == 1 then cost == 0
    else
      && 0 <= cost && Halts(headers, canon, hash, number, ancestor, budget, cost)
      && forall k: nat :: k < cost ==> !Halts(headers, canon, hash, number, ancestor, budget, k)
  }

  /** The canonical chain is too far off for the budget, and so is the ancestor. */
  ghost predicate TooFar(headers: Blocks, canon: Canon, hash: Hash, number: nat, ancestor: nat, budget: nat) {
    1 < ancestor && budget < ancestor && forall k: nat :: k <= budget ==> !Meets(headers, canon, hash, number, k)
  }

  /**
   GetAncestor: the hash and number `ancestor` generations back, or the zero hash. It leaves the walk
   as soon as it meets the canonical chain, where the index gives the answer at once; each block
   walked before that uses up one unit of the budget.
   */
  method GetAncestor(headers: Blocks, canon: Canon, hash: Hash, number: nat, ancestor: nat, budget: nat)
    returns (h: Hash, n: nat, budget': nat)
    requires NonZero(headers) && ParentLinked(headers, canon) && hash != ZERO_HASH
    ensures h != ZERO_HASH ==> ancestor <= number && n == number - ancestor && Walk(headers, hash, number, ancestor) == Some(h)
    ensures h == ZERO_HASH <==>
      ancestor > number || Walk(headers, hash, number, ancestor).None? || TooFar(headers, canon, hash, number, ancestor, budget)
    ensures Costs(headers, canon, hash, number, ancestor, budget, budget - budget')
    ensures ReadCanonicalHash(canon, number) == hash && ancestor <= number ==>
      number - ancestor in canon && h == canon[number - ancestor] && n == number - ancestor && budget' == budget
  {
    budget' := budget;
    if ancestor > number { return ZERO_HASH, 0, budget; }
    if ancestor == 1 {
      var header := GetBlock(headers, hash, number);
      if header.Some? { return header.value.parent, number - 1, budget; }
      return ZERO_HASH, 0, budget;
    }
    h, n := hash, number;
    var left: nat := ancestor;
    while left != 0
      invariant h != ZERO_HASH && left <= n && n == number - (ancestor - left) && budget' == budget - (ancestor - left)
      invariant Walk(headers, hash, number, ancestor - left) == Some(h)
      invariant forall k: nat :: k < ancestor - left ==> !Halts(headers, canon, hash, number, ancestor, budget, k)
      invariant ReadCanonicalHash(canon, number) == hash ==> left == ancestor
    {
      WalkOn(headers, hash, number, ancestor - left, left);
      if ReadCanonicalHash(canon, n) == h {
        assert Meets(headers, canon, hash, number, ancestor - left);
        CanonicalWalk(headers, canon, n, left);
        return ReadCanonicalHash(canon, n - left), n - left, budget';
      }
      assert !Meets(headers, canon, hash, number, ancestor - left);
      if budget' == 0 {
        assert forall k: nat :: k < budget && Meets(headers, canon, hash, number, k) ==> Halts(headers, canon, hash, number, ancestor, budget, k);
        return ZERO_HASH, 0, budget';
      }
      budget' := budget' - 1;
      left := left - 1;
      WalkOn(headers, hash, number, ancestor - left - 1, 1);
      var header := GetBlock(headers, h, n);
      if header.None? { return ZERO_HASH, 0, budget'; }
      h, n := header.value.parent, n - 1;
    }
  }

  const MAX_HEADER_FETCH: nat := 192
  const SOFT_RESPONSE_LIMIT: nat := 2 * 1024 * 1024
  const EST_HEADER_SIZE: nat := 500
  const MAX_NON_CANONICAL: nat := 100

  /** 64-bit addition. */
  function Add64(a: nat, b: nat): nat {
    (a + b) % WORD
  }

  lemma Add64Is(a: nat, b: nat)
    requires a <= MAX_UINT64 && b <= MAX_UINT64
    ensures Add64(a, b) == if a + b <= MAX_UINT64 then a + b else a + b - MAX_UINT64 - 1
  {}

  datatype Query = Query(hash: Hash, number: nat, amount: nat, skip: nat, reverse: bool)

  /** The step from header a to the given hash and number is `step` generations, towards genesis or away from it. */
  ghost predicate Generations(headers: Blocks, a: Block, hash: Hash, number: nat, step: nat, reverse: bool) {
    if reverse then Walk(headers, a.hash, a.number, step) == Some(hash) && number + step == a.number
    else Walk(headers, hash, number, step) == Some(a.hash) && a.number + step == number
  }

  /** In hash mode: starts at the asked-for header, all known, each skip+1 generations from the one before. */
  ghost predicate HashReply(headers: Blocks, q: Query, reply: seq<Block>) {
    && (forall i :: 0 <= i < |reply| ==> reply[i].hash in headers && headers[reply[i].hash] == reply[i])
    && (reply != [] ==> reply[0].hash == q.hash)
    && forall i :: 0 < i < |reply| ==> Generations(headers, reply[i - 1], reply[i].hash, reply[i].number, q.skip + 1, q.reverse)
  }

  /** The number of the next header in number mode, if there is one to look for. */
  function NextNumber(q: Query, n: nat): (r: Option<nat>)
    ensures r.Some? && n <= MAX_UINT64 ==> r.value <= MAX_UINT64
  {
    var step := Add64(q.skip, 1);
    if !q.reverse then Some(Add64(n, step)) else if step <= n then Some(n - step) else None
  }

  /** In number mode: canonical headers, each at the number that follows the one before. */
  ghost predicate NumberReply(headers: Blocks, canon: Canon, q: Query, reply: seq<Block>) {
    && (forall i :: 0 <= i < |reply| ==> reply[i].number in canon && canon[reply[i].number] in headers && headers[canon[reply[i].number]] == reply[i])
    && (reply != [] ==> reply[0].number == q.number)
    && forall i :: 0 < i < |reply| ==> NextNumber(q, reply[i - 1].number) == Some(reply[i].number)
  }

  /** The number skip+1 further on, or skip+1 further back if there is one. */
  function StepOver(q: Query, n: nat): Option<nat> {
    if !q.reverse then Some(n + q.skip + 1) else if q.skip + 1 <= n then Some(n - q.skip - 1) else None
  }

  /** The 64-bit sums that do not wrap. */
  predicate Unwrapped(q: Query, n: nat) {
    if q.reverse then q.skip < MAX_UINT64 else n + q.skip + 1 <= MAX_UINT64
  }

  /** Number mode steps by skip+1 exactly if the sum fits; otherwise it goes back, or stays where it is. */
  lemma NextNumberExact(q: Query, n: nat)
    requires q.skip <= MAX_UINT64 && n <= MAX_UINT64
    ensures NextNumber(q, n) == StepOver(q, n) <==> Unwrapped(q, n)
    ensures !Unwrapped(q, n) ==> NextNumber(q, n) == Some(n - (MAX_UINT64 - q.skip))
  {
    Add64Is(q.skip, 1);
    Add64Is(n, Add64(q.skip, 1));
    hide Add64;
  }

  /** Neighbours in the reply are skip+1 apart, in the asked direction. */
  ghost predicate Spaced(q: Query, reply: seq<Block>) {
    forall i :: 0 < i < |reply| ==> StepOver(q, reply[i - 1].number) == Some(reply[i].number)
  }

  /** A reply by number is spaced as asked exactly if no step within it wraps. */
  lemma NumberReplySpaced(headers: Blocks, canon: Canon, q: Query, reply: seq<Block>)
    requires NumberReply(headers, canon, q, reply) && q.skip <= MAX_UINT64
    requires forall h :: h in headers ==> headers[h].number <= MAX_UINT64
    ensures Spaced(q, reply) <==> forall i :: 0 <= i < |reply| - 1 ==> Unwrapped(q, reply[i].number)
  {
    forall i | 0 < i < |reply|
      ensures StepOver(q, reply[i - 1].number) == Some(reply[i].number) <==> Unwrapped(q, reply[i - 1].number)
    {
      NextNumberExact(q, reply[i - 1].number);
    }
    if Spaced(q, reply) {
      forall i | 0 <= i < |reply| - 1 ensures Unwrapped(q, reply[i].number) {
        assert StepOver(q, reply[i + 1 - 1].number) == Some(reply[i + 1].number);
      }
    }
  }

  /** Two queries that wrap: one stays at its first number for ever, one walks back from it one by one. */
  lemma WrappingQueries(n: nat, amount: nat, reverse: bool)
    requires n <= MAX_UINT64
    ensures NextNumber(Query(ZERO_HASH, n, amount, MAX_UINT64, reverse), n) == Some(n)
    ensures 0 < n ==> NextNumber(Query(ZERO_HASH, n, amount, MAX_UINT64 - 1, false), n) == Some(n - 1)
  {
    NextNumberExact(Query(ZERO_HASH, n, amount, MAX_UINT64, reverse), n);
    NextNumberExact(Query(ZERO_HASH, n, amount, MAX_UINT64 - 1, false), n);
  }

  function GetHeaderByNumber(headers: Blocks, canon: Canon, n: nat): (h: Option<Block>) {
    var hash := ReadCanonicalHash(canon, n);
    if hash == ZERO_HASH then None else GetBlock(headers, hash, n)
  }

  /** From a canonical header the next one is the canonical one skip+1 numbers away, if there is one. */
  ghost function CanonicalNext(canon: Canon, q: Query, n: nat): Option<(Hash, nat)> {
    if !q.reverse && n + q.skip + 1 in canon then Some((canon[n + q.skip + 1], n + q.skip + 1))
    else if q.reverse && q.skip + 1 <= n && n - q.skip - 1 in canon then Some((canon[n - q.skip - 1], n - q.skip - 1))
    else None
  }

  /** No stored header is skip+1 generations from the given one: not below it, or not on the canonical chain above it. */
  ghost predicate NothingThere(headers: Blocks, canon: Canon, q: Query, b: Block) {
    if q.reverse then
      var below := Walk(headers, b.hash, b.number, q.skip + 1);
      b.number < q.skip + 1 || below.None? || GetBlock(headers, below.value, b.number - q.skip - 1).None?
    else
      var n := b.number + q.skip + 1;
      n !in canon || Walk(headers, canon[n], n, q.skip + 1) != Some(b.hash)
  }

  /** Finds where a hash-mode query goes after `origin`, or that it ends. */
  method NextByHash(headers: Blocks, canon: Canon, q: Query, origin: Block, budget: nat)
    returns (next: Option<(Hash, nat)>, budget': nat)
    requires NonZero(headers) && ParentLinked(headers, canon) && origin.hash in headers && headers[origin.hash] == origin
    requires q.skip <= MAX_UINT64 && forall h :: h in headers ==> headers[h].number <= MAX_UINT64
    ensures ReadCanonicalHash(canon, origin.number) == origin.hash ==> next == CanonicalNext(canon, q, origin.number)
    ensures next.Some? ==> Generations(headers, origin, next.value.0, next.value.1, q.skip + 1, q.reverse)
    ensures next.Some? ==> next.value.0 != ZERO_HASH && next.value.1 <= MAX_UINT64
    ensures next.Some? && !q.reverse ==> next.value.1 in canon && canon[next.value.1] == next.value.0
    ensures next.None? ==> NothingThere(headers, canon, q, origin) || (q.reverse && TooFar(headers, canon, origin.hash, origin.number, q.skip + 1, budget))
    ensures if q.reverse then Costs(headers, canon, origin.hash, origin.number, q.skip + 1, budget, budget - budget') else budget' == budget
  {
    hide Add64, Walk, TooFar, Halts;
    Add64Is(q.skip, 1);
    Add64Is(origin.number, Add64(q.skip, 1));
    budget' := budget;
    if q.reverse {
      var ancestor := Add64(q.skip, 1);
      if ancestor == 0 { return None, budget; }
      var h, n;
      h, n, budget' := GetAncestor(headers, canon, origin.hash, origin.number, ancestor, budget);
      if h == ZERO_HASH { return None, budget'; }
      return Some((h, n)), budget';
    }
    var following := Add64(origin.number, Add64(q.skip, 1));
    if following <= origin.number { return None, budget; }
    var header := GetHeaderByNumber(headers, canon, following);
    if header.None? { return None, budget; }
    var h, n;
    h, n, budget' := GetAncestor(headers, canon, header.value.hash, following, Add64(q.skip, 1), budget);
    if h != origin.hash { return None, budget'; }
    next := Some((header.value.hash, following));
  }

  /** The budget before each header's step and after the last: by hash towards genesis each walk takes what it costs, else nothing does. */
  ghost predicate Spent(headers: Blocks, canon: Canon, q: Query, reply: seq<Block>, budgets: seq<nat>) {
    && |budgets| == |reply| + 1 && budgets[0] == MAX_NON_CANONICAL
    && forall i :: 0 <= i < |reply| ==>
      if q.hash != ZERO_HASH && q.reverse then
        Costs(headers, canon, reply[i].hash, reply[i].number, q.skip + 1, budgets[i], budgets[i] as int - budgets[i + 1])
      else budgets[i + 1] == budgets[i]
  }

  lemma SpentGrows(headers: Blocks, canon: Canon, q: Query, reply: seq<Block>, budgets: seq<nat>, b: Block, budget: nat)
    requires Spent(headers, canon, q, reply, budgets)
    requires if q.hash != ZERO_HASH && q.reverse then Costs(headers, canon, b.hash, b.number, q.skip + 1, budgets[|reply|], budgets[|reply|] as int - budget)
             else budget == budgets[|reply|]
    ensures Spent(headers, canon, q, reply + [b], budgets + [budget])
  {
    hide Costs;
  }

  /**
   Why a reply is shorter than it may be: there is nothing to go on with, or, past a header that is not
   canonical, what was left of the budget did not reach as far as the canonical chain.
   */
  ghost predicate Ended(headers: Blocks, canon: Canon, q: Query, reply: seq<Block>, budgets: seq<nat>)
    requires |reply| <= |budgets|
  {
    if q.hash == ZERO_HASH then
      var next := if reply == [] then Some(q.number) else NextNumber(q, reply[|reply| - 1].number);
      next.None? || GetHeaderByNumber(headers, canon, next.value).None?
    else if reply == [] then q.hash !in headers
    else
      var last := reply[|reply| - 1];
      if ReadCanonicalHash(canon, last.number) == last.hash then CanonicalNext(canon, q, last.number).None?
      else NothingThere(headers, canon, q, last) || (q.reverse && TooFar(headers, canon, last.hash, last.number, q.skip + 1, budgets[|reply| - 1]))
  }

  lemma EmptyReplies(headers: Blocks, canon: Canon, q: Query)
    ensures HashReply(headers, q, []) && NumberReply(headers, canon, q, []) && Spent(headers, canon, q, [], [MAX_NON_CANONICAL])
  {}

  lemma HashReplyGrows(headers: Blocks, q: Query, reply: seq<Block>, b: Block)
    requires HashReply(headers, q, reply) && b.hash in headers && headers[b.hash] == b
    requires if reply == [] then b.hash == q.hash else Generations(headers, reply[|reply| - 1], b.hash, b.number, q.skip + 1, q.reverse)
    ensures HashReply(headers, q, reply + [b])
  {}

  lemma NumberReplyGrows(headers: Blocks, canon: Canon, q: Query, reply: seq<Block>, b: Block)
    requires NumberReply(headers, canon, q, reply) && b.number in canon && canon[b.number] in headers && headers[canon[b.number]] == b
    requires if reply == [] then b.number == q.number else NextNumber(q, reply[|reply| - 1].number) == Some(b.number)
    ensures NumberReply(headers, canon, q, reply + [b])
  {}

  lemma CanonicalStored(headers: Blocks, canon: Canon, q: Query, n: nat)
    requires ParentLinked(headers, canon) && CanonicalNext(canon, q, n).Some?
    ensures var next := CanonicalNext(canon, q, n).value; GetBlock(headers, next.0, next.1).Some?
  {}

  lemma NotStored(headers: Blocks, canon: Canon, q: Query, last: Block, hash: Hash, number: nat)
    requires ParentLinked(headers, canon) && NonZero(headers) && GetBlock(headers, hash, number).None?
    requires Generations(headers, last, hash, number, q.skip + 1, q.reverse)
    requires !q.reverse ==> number in canon && canon[number] == hash
    ensures NothingThere(headers, canon, q, last)
  {}

  /** The header query: gathers headers until the query ends, something is unknown or a limit is reached. */
  method ServeHeaders(headers: Blocks, canon: Canon, q: Query) returns (reply: seq<Block>, ghost budgets: seq<nat>)
    requires NonZero(headers) && ParentLinked(headers, canon) && (forall h :: h in headers ==> headers[h].number <= MAX_UINT64)
    requires q.skip <= MAX_UINT64 && q.number <= MAX_UINT64
    ensures |reply| <= q.amount && |reply| <= MAX_HEADER_FETCH
    ensures if q.hash != ZERO_HASH then HashReply(headers, q, reply) else NumberReply(headers, canon, q, reply)
    ensures Spent(headers, canon, q, reply, budgets)
    ensures |reply| == q.amount || |reply| == MAX_HEADER_FETCH || Ended(headers, canon, q, reply, budgets)
    ensures q.hash == ZERO_HASH ==> (Spaced(q, reply) <==> forall i :: 0 <= i < |reply| - 1 ==> Unwrapped(q, reply[i].number))
  {
    hide HashReply, NumberReply, Generations, NextNumber, ParentLinked, CanonicalNext, NothingThere, Costs, TooFar, Spent;
    reply, budgets := [], [MAX_NON_CANONICAL];
    EmptyReplies(headers, canon, q);
    var hashMode, first, unknown := q.hash != ZERO_HASH, true, false;
    var hash, number: nat, budget: nat, bytes := q.hash, q.number, MAX_NON_CANONICAL, 0;
    while !unknown && |reply| < q.amount && bytes < SOFT_RESPONSE_LIMIT && |reply| < MAX_HEADER_FETCH
      invariant |reply| <= q.amount && |reply| <= MAX_HEADER_FETCH && number <= MAX_UINT64
      invariant hashMode ==> HashReply(headers, q, reply) && hash != ZERO_HASH && (first <==> reply == []) && (first ==> hash == q.hash)
      invariant hashMode && !first && !unknown ==> Generations(headers, reply[|reply| - 1], hash, number, q.skip + 1, q.reverse)
      invariant hashMode && !first && !unknown && !q.reverse ==> number in canon && canon[number] == hash
      invariant !hashMode ==> NumberReply(headers, canon, q, reply) && (reply == [] ==> number == q.number)
      invariant !hashMode && reply != [] && !unknown ==> NextNumber(q, reply[|reply| - 1].number) == Some(number)
      invariant hashMode && reply != [] && !unknown && ReadCanonicalHash(canon, reply[|reply| - 1].number) == reply[|reply| - 1].hash ==>
        CanonicalNext(canon, q, reply[|reply| - 1].number) == Some((hash, number))
      invariant |budgets| == |reply| + 1 && budgets[|reply|] == budget && Spent(headers, canon, q, reply, budgets)
      invariant bytes == EST_HEADER_SIZE * |reply| && (unknown ==> Ended(headers, canon, q, reply, budgets))
      decreases MAX_HEADER_FETCH - |reply|
    {
      var origin: Option<Block>;
      if hashMode {
        if first {
          first := false;
          origin := if hash in headers then Some(headers[hash]) else None;
          if origin.Some? { number := origin.value.number; }
        } else {
          origin := GetBlock(headers, hash, number);
        }
      } else {
        origin := GetHeaderByNumber(headers, canon, number);
      }
      if origin.None? {
        if hashMode && reply != [] && CanonicalNext(canon, q, reply[|reply| - 1].number).Some? {
          CanonicalStored(headers, canon, q, reply[|reply| - 1].number);
        }
        if hashMode && reply != [] { NotStored(headers, canon, q, reply[|reply| - 1], hash, number); }
        break;
      }
      if hashMode { HashReplyGrows(headers, q, reply, origin.value); } else { NumberReplyGrows(headers, canon, q, reply, origin.value); }
      ghost var sent := reply;
      reply := reply + [origin.value];
      bytes := bytes + EST_HEADER_SIZE;
      if hashMode {
        var next;
        next, budget := NextByHash(headers, canon, q, origin.value, budget);
        if next.Some? { hash, number := next.value.0, next.value.1; } else { unknown := true; }
      } else {
        var next := NextNumber(q, number);
        if next.Some? { number := next.value; } else { unknown := true; }
      }
      SpentGrows(headers, canon, q, sent, budgets, origin.value, budget);
      budgets := budgets + [budget];
    }
    if !hashMode { NumberReplySpaced(headers, canon, q, reply); }
  }

  /** The block hash function handed to the EVM: answers by number below a reference header, caching what it walks. */
  class HashCache {
    const headers: Blocks
    const ref: Block
    var cache: seq<Hash>

    /** The cache lists the reference header's ancestors in order, its parent first. */
    ghost predicate Valid()
      reads this
    {
      forall i :: 0 <= i < |cache| ==> Walk(headers, ref.parent, ref.number - 1, i) == Some(cache[i])
    }

    constructor (headers: Blocks, ref: Block)
      ensures Valid() && this.headers == headers && this.ref == ref && cache == []
    {
      this.headers, this.ref, cache := headers, ref, [];
    }

    /** The same answer as an uncached walk, whatever was asked before; zero when a header is missing. */
    method GetHash(n: nat) returns (hash: Hash)
      requires Valid()
      modifies this
      ensures Valid() && old(cache) <= cache
      ensures n < ref.number ==>
                var walked := Walk(headers, ref.parent, ref.number - 1, ref.number - 1 - n);
                hash == if walked.Some? then walked.value else ZERO_HASH
      ensures ref.number <= n ==> hash == ZERO_HASH
    {
      if |cache| == 0 { cache := [ref.parent]; }
      var idx := ref.number - n - 1;
      if 0 <= idx < |cache| { return cache[idx]; }
      var last, number := cache[|cache| - 1], ref.number - |cache|;
      while true
        invariant Valid() && old(cache) <= cache && 0 < |cache| && last == cache[|cache| - 1] && number == ref.number - |cache|
        invariant n < ref.number ==> |cache| <= idx
        decreases number + 1
      {
        var header := GetBlock(headers, last, number);
        WalkOn(headers, ref.parent, ref.number - 1, |cache| - 1, 1);
        if header.None? {
          if n < ref.number { WalkStops(idx); }
          break;
        }
        cache := cache + [header.value.parent];
        last, number := header.value.parent, header.value.number - 1;
        if n == number { return last; }
      }
      hash := ZERO_HASH;
    }

    lemma WalkStops(k: nat)
      requires Valid() && 0 < |cache| <= k && GetBlock(headers, cache[|cache| - 1], ref.number - |cache|).None?
      ensures Walk(headers, ref.parent, ref.number - 1, k).None?
    {
      WalkOn(headers, ref.parent, ref.number - 1, |cache| - 1, k - (|cache| - 1));
    }
  }
}
