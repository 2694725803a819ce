/**
 ChainIndexer as a protocol: sections are processed with the lock released while notifications
 arrive, and committed by an optimistic check. One step of the model is what happens between two
 releases of the lock; the canonical chain may change arbitrarily between any two steps.
 */
module ChainIndexers {
  import opened Transactions
  import opened Ancestry

  datatype Header = Header(hash: Hash, parent: Hash, number: nat)

  /** A section being processed: the head it builds on, the headers handed to the backend so far, and whether it can only fail. */
  datatype Flight = Flight(section: nat, oldHead: Hash, run: seq<Header>, doomed: bool)
  {
    function LastHead(): Hash {
      if run == [] then oldHead else run[|run| - 1].hash
    }
  }

  /** An indexer with its database (count and section heads) and its children. */
  datatype Indexer = Indexer(size: nat, confirms: nat, cpSections: nat, cpHead: Hash,
                             stored: nat, known: nat, cascaded: nat,
                             count: nat, heads: map<nat, Hash>,
                             flight: Option<Flight>, children: seq<Indexer>)
  {
    function SectionHead(section: nat): Hash {
      if section in heads then heads[section] else ZERO_HASH
    }

    /** The head before a section; before section 0 the wrapped-around number names no section. */
    function HeadBefore(section: nat): Hash {
      if section == 0 then ZERO_HASH else SectionHead(section - 1)
    }

    /** setValidSections: records the count and removes the heads of sections that fall off. */
    function SetValid(sections: nat): Indexer {
      this.(count := sections, stored := sections, heads := map i | i in heads && !(sections <= i < stored) :: heads[i])
    }
  }

  /** newHead: a chain head or, with `reorg`, a common ancestor to fall back to. */
  function NewHead(x: Indexer, head: nat, reorg: bool, canon: nat -> Hash): (y: Indexer)
    requires AllSized(x)
    ensures AllSized(y)
    decreases x, 1
  {
    if reorg then
      var floor := head / x.size;
      var known := if floor < x.cpSections then 0 else floor;
      var kept := Max(floor, x.cpSections);
      var lower := x.(known := Min(x.known, known));
      var cut := if kept < x.stored then lower.SetValid(kept) else lower;
      if known * x.size < x.cascaded then
        cut.(cascaded := known * x.size, children := NotifyAll(x.children, known * x.size, true, canon))
      else cut
    else
      if head < x.confirms then x else
      var sections := (head + 1 - x.confirms) / x.size;
      var usable := if sections < x.cpSections then 0 else sections;
      if usable <= x.known then x
      else if x.known < x.cpSections && canon(x.cpSections * x.size - 1) != x.cpHead then x
      else x.(known := usable)
  }

  function NotifyAll(xs: seq<Indexer>, head: nat, reorg: bool, canon: nat -> Hash): (r: seq<Indexer>)
    requires forall i :: 0 <= i < |xs| ==> AllSized(xs[i])
    ensures |r| == |xs| && forall i :: 0 <= i < |xs| ==> r[i] == NewHead(xs[i], head, reorg, canon) && AllSized(r[i])
    decreases xs, 0
  {
    if xs == [] then [] else [NewHead(xs[0], head, reorg, canon)] + NotifyAll(xs[1..], head, reorg, canon)
  }

  /** Sections have a positive size everywhere in the tree. */
  predicate AllSized(x: Indexer) {
    0 < x.size && forall i :: 0 <= i < |x.children| ==> AllSized(x.children[i])
  }

  datatype Step =
    | Notify(head: nat, reorg: bool, canon: nat -> Hash)  // an event from the chain, at the root only
    | Begin                                               // the update loop takes up the next section
    | ResetFails                                          // the backend refuses to start it, and the whole index is dropped
    | Read(header: Header)                                // one more canonical header is processed
    | Fail                                                // a header is missing or does not link up, or the backend fails
    | Commit(canon: nat -> Hash)                          // all headers are processed; the lock is taken again
    | Adopt(child: Indexer, canon: nat -> Hash)           // AddChildIndexer
    | Child(index: nat, step: Step)                       // a step of a child

  /** When a step can happen. */
  predicate Enabled(x: Indexer, s: Step) {
    match s
    case Notify(_, _, _) => true
    case Begin => x.flight.None? && x.stored < x.known
    case ResetFails => x.flight.Some? && x.flight.value.run == []
    case Read(h) =>
      && x.flight.Some? && !x.flight.value.doomed && |x.flight.value.run| < x.size
      && h.number == x.flight.value.section * x.size + |x.flight.value.run|
      && h.hash != ZERO_HASH && h.parent == x.flight.value.LastHead()
    case Fail => x.flight.Some?
    case Commit(_) => x.flight.Some? && !x.flight.value.doomed && |x.flight.value.run| == x.size
    case Adopt(c, _) => AllSized(c) && Fresh(c)
    case Child(i, t) => i < |x.children| && !t.Notify? && Enabled(x.children[i], t)
  }

  /** An indexer over an empty database, or one that holds just its checkpoint. */
  predicate Fresh(x: Indexer) {
    && x.stored == x.cpSections == x.count && x.known == 0 && x.cascaded == 0 && x.flight.None? && x.children == []
    && x.heads == (if x.cpSections == 0 then map[] else map[x.cpSections - 1 := x.cpHead])
    && (0 < x.cpSections ==> x.cpHead != ZERO_HASH)
  }

  /** AddChildIndexer: a new child is told of the sections its parent has. */
  function Told(x: Indexer, c: Indexer, canon: nat -> Hash): Indexer
    requires AllSized(x) && AllSized(c)
  {
    var sections := Min(x.stored, x.known);
    if 0 < sections then NewHead(c, sections * x.size - 1, false, canon) else c
  }

  /** What a step does. */
  function Next(x: Indexer, s: Step): (y: Indexer)
    requires AllSized(x) && Enabled(x, s)
    decreases s
  {
    match s
    case Notify(head, reorg, canon) => NewHead(x, head, reorg, canon)
    case Begin => x.(flight := Some(Flight(x.stored, x.HeadBefore(x.stored), [], false)))
    case ResetFails => x.SetValid(0).(flight := Some(x.flight.value.(doomed := true)))
    case Read(h) => x.(flight := Some(x.flight.value.(run := x.flight.value.run + [h])))
    case Fail => x.(flight := None, known := x.stored)
    case Commit(canon) => CommitSection(x, canon)
    case Adopt(c, canon) => x.(children := x.children + [Told(x, c, canon)])
    case Child(i, t) => x.(children := x.children[i := Next(x.children[i], t)])
  }

  /** Commit if the head the section was built on is still in place; otherwise give up until told again. */
  function CommitSection(x: Indexer, canon: nat -> Hash): Indexer
    requires AllSized(x) && x.flight.Some?
  {
    var f := x.flight.value;
    if f.oldHead != x.HeadBefore(f.section) then x.(flight := None, known := x.stored)
    else
      var y := x.(heads := x.heads[f.section := f.LastHead()]).SetValid(f.section + 1);
      var reached := (f.section + 1) * x.size - 1;
      y.(flight := None, cascaded := reached, children := NotifyAll(x.children, reached, false, canon))
  }

  /** The headers of a section: consecutive numbers, each the child of the one before, from `before` to `head`. */
  ghost predicate IsSection(run: seq<Header>, size: nat, section: nat, before: Hash, head: Hash) {
    Linked(run, size, section, before) && |run| == size && 0 < size && run[size - 1].hash == head
  }

  ghost predicate Linked(run: seq<Header>, size: nat, section: nat, before: Hash) {
    forall i :: 0 <= i < |run| ==>
      run[i].number == section * size + i && run[i].hash != ZERO_HASH && run[i].parent == if i == 0 then before else run[i - 1].hash
  }

  /**
   What holds of an indexer after any interleaving: the database count is the stored count, section
   heads are there exactly for the stored sections, and each stored section is one parent-linked run
   of headers from the head before it. An index that still stands on its checkpoint (`anchored`)
   holds the checkpoint's head and the sections after it.
   */
  ghost predicate Consistent(x: Indexer, anchored: bool) {
    && x.count == x.stored && (anchored ==> 0 < x.cpSections <= x.stored)
    && (forall i :: i in x.heads <==> (if anchored then x.cpSections - 1 else 0) <= i < x.stored)
    && (forall i :: i in x.heads ==> x.heads[i] != ZERO_HASH)
    && (forall i :: (if anchored then x.cpSections else 0) <= i < x.stored ==> HasSection(x, i))
    && (x.flight.Some? ==> FlightOk(x, x.flight.value))
  }

  ghost predicate HasSection(x: Indexer, i: nat) {
    exists run :: IsSection(run, x.size, i, x.HeadBefore(i), x.SectionHead(i))
  }

  /** A flight builds on the head below its section, which may meanwhile have been rolled back. */
  ghost predicate FlightOk(x: Indexer, f: Flight) {
    && x.stored <= f.section && |f.run| <= x.size && Linked(f.run, x.size, f.section, f.oldHead)
    && (f.oldHead == ZERO_HASH <==> f.section == 0)
    && (x.stored == f.section ==> f.oldHead == x.HeadBefore(f.section))
  }

  lemma SameSections(x: Indexer, y: Indexer, i: nat)
    requires HasSection(x, i) && y.size == x.size && y.HeadBefore(i) == x.HeadBefore(i) && y.SectionHead(i) == x.SectionHead(i)
    ensures HasSection(y, i)
  {}

  /** Rolling sections back, but not below a checkpoint the index stands on, keeps it consistent. */
  lemma SetValidKeeps(x: Indexer, sections: nat, anchored: bool)
    requires Consistent(x, anchored) && sections <= x.stored && (anchored ==> x.cpSections <= sections)
    ensures Consistent(x.SetValid(sections), anchored)
  {
    var y := x.SetValid(sections);
    forall i | (if anchored then x.cpSections else 0) <= i < sections
      ensures HasSection(y, i)
    {
      SameSections(x, y, i);
    }
  }

  /** Consistency is about the database and the flight only. */
  lemma ConsistentFrame(x: Indexer, y: Indexer, anchored: bool)
    requires Consistent(x, anchored)
    requires y.size == x.size && y.cpSections == x.cpSections && y.stored == x.stored && y.count == x.count && y.heads == x.heads
    requires y.flight == x.flight || y.flight.None?
    ensures Consistent(y, anchored)
  {
    forall i | (if anchored then x.cpSections else 0) <= i < x.stored
      ensures HasSection(y, i)
    {
      SameSections(x, y, i);
    }
  }

  /** The optimistic check passes exactly when no section was rolled back since the flight began. */
  lemma CommitCheck(x: Indexer, anchored: bool)
    requires Consistent(x, anchored) && x.flight.Some?
    ensures x.flight.value.oldHead == x.HeadBefore(x.flight.value.section) <==> x.stored == x.flight.value.section
  {}

  /** Storing the next section, with the run it was built from. */
  lemma StoreSection(x: Indexer, y: Indexer, anchored: bool)
    requires Consistent(x, anchored) && x.flight.Some? && x.stored == x.flight.value.section
    requires 0 < x.size && |x.flight.value.run| == x.size
    requires y.size == x.size && y.cpSections == x.cpSections && y.flight.None?
    requires y.stored == y.count == x.stored + 1 && y.heads == x.heads[x.stored := x.flight.value.LastHead()]
    ensures Consistent(y, anchored)
  {
    var f := x.flight.value;
    assert f.LastHead() == f.run[x.size - 1].hash;
    forall i | (if anchored then x.cpSections else 0) <= i < y.stored
      ensures HasSection(y, i)
    {
      if i < x.stored {
        SameSections(x, y, i);
      } else {
        assert IsSection(f.run, y.size, i, y.HeadBefore(i), y.SectionHead(i));
      }
    }
  }

  lemma CommitKeeps(x: Indexer, canon: nat -> Hash, anchored: bool)
    requires AllSized(x) && Consistent(x, anchored) && Enabled(x, Commit(canon))
    ensures Consistent(CommitSection(x, canon), anchored)
  {
    hide Consistent;
    var f, y := x.flight.value, CommitSection(x, canon);
    CommitCheck(x, anchored);
    if x.stored == f.section {
      assert y.heads == x.heads[f.section := f.LastHead()];
      StoreSection(x, y, anchored);
    } else {
      ConsistentFrame(x, y, anchored);
    }
  }

  /** Every indexer of the tree is consistent. */
  ghost predicate AllConsistent(x: Indexer) {
    (exists anchored :: Consistent(x, anchored)) && forall i :: 0 <= i < |x.children| ==> AllConsistent(x.children[i])
  }

  lemma {:induction false} NotifyKeeps(x: Indexer, head: nat, reorg: bool, canon: nat -> Hash)
    requires AllSized(x) && AllConsistent(x)
    ensures AllConsistent(NewHead(x, head, reorg, canon)) && AllSized(NewHead(x, head, reorg, canon))
    decreases x
  {
    var y := NewHead(x, head, reorg, canon);
    forall i | 0 <= i < |y.children|
      ensures AllConsistent(y.children[i]) && AllSized(y.children[i])
    {
      if y.children != x.children {
        NotifyKeeps(x.children[i], y.cascaded, true, canon);
      }
    }
    var anchored :| Consistent(x, anchored);
    NotifyKeepsOne(x, head, reorg, canon, anchored);
  }

  lemma NotifyKeepsOne(x: Indexer, head: nat, reorg: bool, canon: nat -> Hash, anchored: bool)
    requires AllSized(x) && Consistent(x, anchored)
    ensures Consistent(NewHead(x, head, reorg, canon), anchored)
  {
    hide Consistent;
    var y := NewHead(x, head, reorg, canon);
    var kept := Max(head / x.size, x.cpSections);
    if reorg && kept < x.stored {
      SetValidKeeps(x, kept, anchored);
      ConsistentFrame(x.SetValid(kept), y, anchored);
    } else {
      ConsistentFrame(x, y, anchored);
    }
  }

  lemma {:induction false} StepKeeps(x: Indexer, s: Step)
    requires AllSized(x) && AllConsistent(x) && Enabled(x, s)
    ensures AllConsistent(Next(x, s)) && AllSized(Next(x, s))
    decreases s
  {
    hide Consistent;
    var y := Next(x, s);
    var anchored :| Consistent(x, anchored);
    match s
    case Notify(head, reorg, canon) =>
      NotifyKeeps(x, head, reorg, canon);
    case Begin =>
      assert Consistent(y, anchored) by { BeginKeeps(x, anchored); }
    case ResetFails =>
      assert Consistent(y, false) by { ResetKeeps(x, anchored); }
    case Read(h) =>
      assert Consistent(y, anchored) by { ReadKeeps(x, h, anchored); }
    case Fail =>
      ConsistentFrame(x, y, anchored);
    case Commit(canon) =>
      CommitKeepsAll(x, canon);
    case Adopt(c, canon) =>
      AdoptKeepsAll(x, c, canon);
    case Child(i, t) =>
      StepKeeps(x.children[i], t);
      ConsistentFrame(x, y, anchored);
  }

  lemma CommitKeepsAll(x: Indexer, canon: nat -> Hash)
    requires AllSized(x) && AllConsistent(x) && Enabled(x, Commit(canon))
    ensures AllConsistent(CommitSection(x, canon)) && AllSized(CommitSection(x, canon))
  {
    hide Consistent;
    var y := CommitSection(x, canon);
    var anchored :| Consistent(x, anchored);
    CommitKeeps(x, canon, anchored);
    forall i | 0 <= i < |y.children|
      ensures AllConsistent(y.children[i]) && AllSized(y.children[i])
    {
      if y.children != x.children { NotifyKeeps(x.children[i], y.cascaded, false, canon); }
    }
  }

  lemma AdoptKeepsAll(x: Indexer, c: Indexer, canon: nat -> Hash)
    requires AllSized(x) && AllConsistent(x) && Enabled(x, Adopt(c, canon))
    ensures AllConsistent(Next(x, Adopt(c, canon))) && AllSized(Next(x, Adopt(c, canon)))
  {
    hide Consistent;
    var y := Next(x, Adopt(c, canon));
    var anchored :| Consistent(x, anchored);
    ConsistentFrame(x, y, anchored);
    FreshConsistent(c);
    if 0 < Min(x.stored, x.known) { NotifyKeeps(c, Min(x.stored, x.known) * x.size - 1, false, canon); }
    forall i | 0 <= i < |y.children|
      ensures AllConsistent(y.children[i]) && AllSized(y.children[i])
    {
      if i < |x.children| { assert y.children[i] == x.children[i]; }
    }
  }

  lemma FreshConsistent(x: Indexer)
    requires Fresh(x)
    ensures AllConsistent(x)
  {
    assert Consistent(x, 0 < x.cpSections);
  }

  lemma BeginKeeps(x: Indexer, anchored: bool)
    requires AllSized(x) && Consistent(x, anchored) && Enabled(x, Begin)
    ensures Consistent(Next(x, Begin), anchored)
  {
    var y := Next(x, Begin);
    ConsistentFrame(x, y.(flight := None), anchored);
    forall i | (if anchored then x.cpSections else 0) <= i < x.stored
      ensures HasSection(y, i)
    {
      SameSections(x, y, i);
    }
    if 0 < x.stored { assert x.stored - 1 in x.heads; }
  }

  lemma ReadKeeps(x: Indexer, h: Header, anchored: bool)
    requires AllSized(x) && Consistent(x, anchored) && Enabled(x, Read(h))
    ensures Consistent(Next(x, Read(h)), anchored)
  {
    var f := x.flight.value;
    var g := f.(run := f.run + [h]);
    var y := x.(flight := Some(g));
    assert Linked(g.run, x.size, g.section, g.oldHead);
    assert y.HeadBefore(g.section) == x.HeadBefore(f.section);
    assert FlightOk(y, g);
    forall i | (if anchored then x.cpSections else 0) <= i < x.stored
      ensures HasSection(y, i)
    {
      SameSections(x, y, i);
    }
  }

  lemma ResetKeeps(x: Indexer, anchored: bool)
    requires AllSized(x) && Consistent(x, anchored) && Enabled(x, ResetFails)
    ensures Consistent(Next(x, ResetFails), false)
  {}

  /** A run of the protocol: the states it goes through and the steps between them. */
  ghost predicate IsTrace(trace: seq<Indexer>, steps: seq<Step>) {
    && |trace| == |steps| + 1 && AllSized(trace[0])
    && forall i :: 0 <= i < |steps| ==> AllSized(trace[i]) && Enabled(trace[i], steps[i]) && trace[i + 1] == Next(trace[i], steps[i])
  }

  /** Whatever the interleaving of notifications, reads, failures and commits, every indexer stays consistent. */
  lemma {:induction false} AlwaysConsistent(trace: seq<Indexer>, steps: seq<Step>, i: nat)
    requires IsTrace(trace, steps) && Fresh(trace[0]) && i < |trace|
    ensures AllConsistent(trace[i])
  {
    if i == 0 {
      FreshConsistent(trace[0]);
    } else {
      AlwaysConsistent(trace, steps, i - 1);
      StepKeeps(trace[i - 1], steps[i - 1]);
    }
  }

  lemma NotStoredMeanwhile(x: Indexer, s: Step)
    requires AllSized(x) && Enabled(x, s) && !s.Commit?
    ensures Next(x, s).stored <= x.stored
  {}

  /**
   A commit goes through only if nothing was rolled back while the section was in flight: from the
   step that took the section up to the successful check, the stored count never moved.
   */
  lemma {:induction false} CommitUndisturbed(trace: seq<Indexer>, steps: seq<Step>, begin: nat, commit: nat, k: nat)
    requires IsTrace(trace, steps) && Fresh(trace[0])
    requires begin < commit < |steps| && steps[begin].Begin? && steps[commit].Commit? && begin < k <= commit
    requires forall i :: begin < i < commit ==> !steps[i].Begin? && !steps[i].Fail? && !steps[i].Commit?
    requires var f := trace[commit].flight.value; f.oldHead == trace[commit].HeadBefore(f.section)
    ensures trace[k].stored == trace[begin].stored == trace[commit].flight.value.section
  {
    AlwaysConsistent(trace, steps, commit);
    var anchored :| Consistent(trace[commit], anchored);
    CommitCheck(trace[commit], anchored);
    SectionInFlight(trace, steps, begin, commit);
    StoredFalls(trace, steps, begin, k);
    StoredFalls(trace, steps, k, commit);
  }

  lemma {:induction false} StoredFalls(trace: seq<Indexer>, steps: seq<Step>, i: nat, j: nat)
    requires IsTrace(trace, steps) && i <= j < |trace| && forall k :: i <= k < j ==> !steps[k].Commit?
    ensures trace[j].stored <= trace[i].stored
    decreases j - i
  {
    if i < j {
      NotStoredMeanwhile(trace[i], steps[i]);
      StoredFalls(trace, steps, i + 1, j);
    }
  }

  lemma {:induction false} SectionInFlight(trace: seq<Indexer>, steps: seq<Step>, begin: nat, j: nat)
    requires IsTrace(trace, steps) && begin < j < |trace| && steps[begin].Begin?
    requires forall i :: begin < i < j ==> !steps[i].Begin? && !steps[i].Fail? && !steps[i].Commit?
    ensures trace[j].flight.Some? && trace[j].flight.value.section == trace[begin].stored
    decreases j
  {
    if begin + 1 < j {
      SectionInFlight(trace, steps, begin, j - 1);
    }
  }

  /** The checkpoint is behind us, or the chain is known to contain it. */
  predicate Trusted(x: Indexer, canon: nat -> Hash) {
    x.known < x.cpSections ==> 0 < x.size && canon(x.cpSections * x.size - 1) == x.cpHead
  }

  /**
   What a new head teaches: s sections become known exactly if the last block of the s-th, and of the
   checkpoint, has its confirmations under the head and the chain contains the checkpoint. Nothing else changes.
   */
  lemma KnownExact(x: Indexer, head: nat, canon: nat -> Hash, s: nat)
    requires AllSized(x) && x.known < s
    ensures var y := NewHead(x, head, false, canon);
      && (s <= y.known <==> Trusted(x, canon) && Max(s, x.cpSections) * x.size + x.confirms <= head + 1)
      && x.known <= y.known && y == x.(known := y.known)
  {
    if x.confirms <= head {
      Quotient(head + 1 - x.confirms, x.size, Max(s, x.cpSections));
      Quotient(head + 1 - x.confirms, x.size, s);
      Quotient(head + 1 - x.confirms, x.size, x.cpSections);
    } else {
      MulLe(1, Max(s, x.cpSections), x.size);
    }
  }

  lemma Quotient(blocks: nat, size: nat, s: nat)
    requires 0 < size
    ensures s <= blocks / size <==> s * size <= blocks
  {
    var q := blocks / size;
    if s <= q { MulLe(s, q, size); } else { MulLe(q + 1, s, size); }
  }

  /**
   What falling back to block h leaves: the sections that end below h and those of the checkpoint, of
   which the known ones count from the checkpoint on. Children keep what ends below the last section left.
   */
  lemma ReorgExact(x: Indexer, h: nat, canon: nat -> Hash, s: nat)
    requires AllSized(x) && 0 < s
    ensures var y := NewHead(x, h, true, canon);
      && (s <= y.stored <==> s <= x.stored && (s <= x.cpSections || s * x.size <= h))
      && (s <= y.known <==> s <= x.known && Max(s, x.cpSections) * x.size <= h)
      && (forall i :: i in y.heads ==> i in x.heads && y.heads[i] == x.heads[i])
      && |y.children| == |x.children|
      && forall j :: 0 <= j < |x.children| && s <= x.children[j].stored ==>
        var c := x.children[j];
        s <= c.cpSections || (x.cpSections <= h / x.size && s * c.size <= h / x.size * x.size) ==> s <= y.children[j].stored
  {
    var y := NewHead(x, h, true, canon);
    Quotient(h, x.size, s);
    Quotient(h, x.size, x.cpSections);
    forall j | 0 <= j < |x.children|
      ensures var c := x.children[j];
        s <= c.stored && (s <= c.cpSections || (x.cpSections <= h / x.size && s * c.size <= h / x.size * x.size)) ==> s <= y.children[j].stored
    {
      Quotient(y.cascaded, x.children[j].size, s);
    }
  }

  /** The first `blocks` blocks confirm s sections and the checkpoint, which the chain contains. */
  predicate Confirm(blocks: nat, c: Indexer, canon: nat -> Hash, s: nat) {
    Trusted(c, canon) && Max(s, c.cpSections) * c.size + c.confirms <= blocks
  }

  /** A commit tells every child of the blocks the indexer now covers, and they know what these confirm. */
  lemma CommitTells(x: Indexer, canon: nat -> Hash, anchored: bool, j: nat, s: nat)
    requires AllSized(x) && Consistent(x, anchored) && Enabled(x, Commit(canon)) && x.stored == x.flight.value.section
    requires j < |x.children| && x.children[j].known < s
    ensures var c, y := x.children[j], CommitSection(x, canon);
      && y.stored == x.stored + 1 && |y.children| == |x.children|
      && (s <= y.children[j].known <==> Confirm(y.stored * y.size, c, canon, s))
  {
    hide Consistent, NewHead, NotifyAll, Trusted;
    CommitCheck(x, anchored);
    MulLe(1, x.stored + 1, x.size);
    assert CommitSection(x, canon).children[j] == NewHead(x.children[j], (x.stored + 1) * x.size - 1, false, canon);
    KnownExact(x.children[j], (x.stored + 1) * x.size - 1, canon, s);
  }

  /** A new child knows what the sections its parent has, and knows of, confirm. */
  lemma AdoptTells(x: Indexer, c: Indexer, canon: nat -> Hash, s: nat)
    requires AllSized(x) && Enabled(x, Adopt(c, canon)) && 0 < s
    ensures var y := Next(x, Adopt(c, canon));
      && |y.children| == |x.children| + 1 && y.children[..|x.children|] == x.children
      && (s <= y.children[|x.children|].known <==> Confirm(Min(x.stored, x.known) * x.size, c, canon, s))
  {
    hide Told, Confirm;
    ToldKnows(x, c, canon, s);
  }

  lemma ToldKnows(x: Indexer, c: Indexer, canon: nat -> Hash, s: nat)
    requires AllSized(x) && AllSized(c) && c.known == 0 < s
    ensures s <= Told(x, c, canon).known <==> Confirm(Min(x.stored, x.known) * x.size, c, canon, s)
  {
    hide NewHead, Trusted;
    var sections := Min(x.stored, x.known);
    if 0 < sections {
      MulLe(1, sections, x.size);
      var head := sections * x.size - 1;
      assert Told(x, c, canon) == NewHead(c, head, false, canon);
      hide AllSized, Told;
      KnownExact(c, head, canon, s);
    } else {
      MulLe(1, Max(s, c.cpSections), c.size);
    }
  }

  /** An indexer that gave up on a section takes up none until it is told of a new head. */
  lemma {:induction false} GivesUp(trace: seq<Indexer>, steps: seq<Step>, i: nat, j: nat)
    requires IsTrace(trace, steps) && Fresh(trace[0]) && i < j < |trace|
    requires steps[i].Fail? || (steps[i].Commit? && trace[i].stored != trace[i].flight.value.section)
    requires forall k :: i < k < j ==> !steps[k].Notify?
    ensures trace[j].flight.None? && trace[j].known <= trace[j].stored && !Enabled(trace[j], Begin)
    decreases j
  {
    if i + 1 < j {
      GivesUp(trace, steps, i, j - 1);
    } else if steps[i].Commit? {
      AlwaysConsistent(trace, steps, i);
      var anchored :| Consistent(trace[i], anchored);
      CommitCheck(trace[i], anchored);
    }
  }

  /**
   The sections an indexer knows, processes or, past its checkpoint, stores have all their blocks and the
   required confirmations at or below block `top`; its children's, with its own confirmations on top.
   */
  ghost predicate Confirmed(x: Indexer, top: int) {
    && ConfirmedHere(x, top)
    && forall i :: 0 <= i < |x.children| ==> Confirmed(x.children[i], top - x.confirms)
  }

  ghost predicate ConfirmedHere(x: Indexer, top: int) {
    && (x.known == 0 || x.known * x.size + x.confirms <= top + 1)
    && (x.stored <= x.cpSections || x.stored * x.size + x.confirms <= top + 1)
    && (x.flight.Some? ==> x.stored <= x.flight.value.section && (x.flight.value.section + 1) * x.size + x.confirms <= top + 1)
  }

  lemma {:induction false} ConfirmedMore(x: Indexer, top: int, top': int)
    requires Confirmed(x, top) && top <= top'
    ensures Confirmed(x, top')
    decreases x
  {
    forall i | 0 <= i < |x.children|
      ensures Confirmed(x.children[i], top' - x.confirms)
    {
      ConfirmedMore(x.children[i], top - x.confirms, top' - x.confirms);
    }
  }

  lemma {:induction false} NotifyConfirmed(x: Indexer, head: nat, reorg: bool, canon: nat -> Hash, top: int)
    requires AllSized(x) && Confirmed(x, top) && (reorg || head <= top)
    ensures Confirmed(NewHead(x, head, reorg, canon), top)
    decreases x
  {
    var y := NewHead(x, head, reorg, canon);
    if reorg {
      forall i | 0 <= i < |y.children|
        ensures Confirmed(y.children[i], top - x.confirms)
      {
        if y.cascaded < x.cascaded { NotifyConfirmed(x.children[i], y.cascaded, true, canon, top - x.confirms); }
      }
      MulLe(y.known, x.known, x.size);
      MulLe(y.stored, x.stored, x.size);
    } else if y.known != x.known {
      KnownExact(x, head, canon, y.known);
      MulLe(y.known, Max(y.known, x.cpSections), x.size);
    }
  }

  lemma CommitConfirmed(x: Indexer, canon: nat -> Hash, top: int)
    requires AllSized(x) && Confirmed(x, top) && Enabled(x, Commit(canon))
    ensures Confirmed(CommitSection(x, canon), top)
  {
    hide NewHead, NotifyAll;
    var y := CommitSection(x, canon);
    var section := x.flight.value.section;
    MulLe(x.stored, section + 1, x.size);
    MulLe(1, section + 1, x.size);
    forall i | 0 <= i < |y.children|
      ensures Confirmed(y.children[i], top - x.confirms)
    {
      NotifyConfirmed(x.children[i], (section + 1) * x.size - 1, false, canon, top - x.confirms);
    }
  }

  lemma AdoptConfirmed(x: Indexer, c: Indexer, canon: nat -> Hash, top: int)
    requires AllSized(x) && Confirmed(x, top) && Enabled(x, Adopt(c, canon))
    ensures Confirmed(Next(x, Adopt(c, canon)), top)
  {
    var y, sections := Next(x, Adopt(c, canon)), Min(x.stored, x.known);
    assert Confirmed(c, top - x.confirms);
    if 0 < sections {
      MulLe(sections, x.known, x.size);
      MulLe(1, sections, x.size);
      NotifyConfirmed(c, sections * x.size - 1, false, canon, top - x.confirms);
    }
    forall i | 0 <= i < |y.children|
      ensures Confirmed(y.children[i], top - x.confirms)
    {
      if i < |x.children| { assert y.children[i] == x.children[i]; }
    }
  }

  lemma {:induction false} StepConfirmed(x: Indexer, s: Step, top: int)
    requires AllSized(x) && Confirmed(x, top) && Enabled(x, s) && (s.Notify? && !s.reorg ==> s.head <= top)
    ensures Confirmed(Next(x, s), top)
    decreases s
  {
    match s
    case Notify(head, reorg, canon) =>
      NotifyConfirmed(x, head, reorg, canon, top);
    case Begin =>
      MulLe(x.stored + 1, x.known, x.size);
    case ResetFails =>
    case Read(h) =>
    case Fail =>
      MulLe(x.stored, x.flight.value.section + 1, x.size);
    case Commit(canon) =>
      CommitConfirmed(x, canon, top);
    case Adopt(c, canon) =>
      AdoptConfirmed(x, c, canon, top);
    case Child(i, t) =>
      StepConfirmed(x.children[i], t, top - x.confirms);
  }

  /** The highest block announced as a head in these steps, or -1. */
  function HighestHead(steps: seq<Step>): int {
    if steps == [] then -1
    else
      var s, rest := steps[|steps| - 1], HighestHead(steps[..|steps| - 1]);
      if s.Notify? && !s.reorg && rest < s.head then s.head else rest
  }

  /**
   In every run, no indexer of the tree takes up or stores a section before a head has been announced
   that gives the section's last block the confirmations it and the indexers above it require.
   */
  lemma {:induction false} AlwaysConfirmed(trace: seq<Indexer>, steps: seq<Step>, i: nat)
    requires IsTrace(trace, steps) && Fresh(trace[0]) && i < |trace|
    ensures Confirmed(trace[i], HighestHead(steps[..i]))
  {
    if 0 < i {
      AlwaysConfirmed(trace, steps, i - 1);
      assert steps[..i][..i - 1] == steps[..i - 1];
      ConfirmedMore(trace[i - 1], HighestHead(steps[..i - 1]), HighestHead(steps[..i]));
      StepConfirmed(trace[i - 1], steps[i - 1], HighestHead(steps[..i]));
    }
  }

  /** Nothing is being processed anywhere in the tree. */
  predicate Quiet(x: Indexer) {
    x.flight.None? && forall i :: 0 <= i < |x.children| ==> Quiet(x.children[i])
  }

  /**
   The steps under which rollbacks reach the whole tree: no reorg notification while a section is in
   flight, no refused start of an index that holds sections, and no child that is told of more than
   its parent has announced.
   */
  predicate Safe(x: Indexer, s: Step)
    requires AllSized(x) && Enabled(x, s)
  {
    match s
    case Notify(_, reorg, _) => reorg ==> Quiet(x)
    case ResetFails => x.stored == 0
    case Adopt(c, canon) => var told := Told(x, c, canon); told.known * told.size <= x.cascaded + 1
    case Child(i, t) => Safe(x.children[i], t)
    case _ => true
  }

  /** A child has heard of blocks up to `reach` only, and so stores and announces no more. */
  ghost predicate Within(c: Indexer, reach: nat) {
    && c.known * c.size <= reach + 1 && c.cascaded <= reach
    && (c.stored <= c.cpSections || c.stored * c.size <= reach + 1)
  }

  /** Every child is within what its parent has announced. */
  ghost predicate Nested(x: Indexer) {
    && NestedHere(x)
    && forall i :: 0 <= i < |x.children| ==> Within(x.children[i], x.cascaded) && Nested(x.children[i])
  }

  ghost predicate NestedHere(x: Indexer) {
    && x.cascaded <= x.stored * x.size
    && (x.flight.Some? ==> x.flight.value.section == x.stored < x.known)
    && (x.cpSections == 0 ==> x.stored <= x.known && x.stored * x.size <= x.cascaded + 1)
  }

  /** Every stored section in the tree, past the indexer's checkpoint, ends at or below block h. */
  ghost predicate EndsBy(x: Indexer, h: nat) {
    && (x.stored <= x.cpSections || x.stored * x.size <= h + 1)
    && forall i :: 0 <= i < |x.children| ==> EndsBy(x.children[i], h)
  }

  lemma {:induction false} WithinEndsBy(x: Indexer, reach: nat, h: nat)
    requires Within(x, reach) && Nested(x) && reach <= h
    ensures EndsBy(x, h)
    decreases x
  {
    forall i | 0 <= i < |x.children|
      ensures EndsBy(x.children[i], h)
    {
      WithinEndsBy(x.children[i], x.cascaded, h);
    }
  }

  lemma Sections(head: nat, size: nat)
    requires 0 < size
    ensures head / size * size <= head
  {}

  lemma MulLe(a: nat, b: nat, size: nat)
    requires a <= b
    ensures a * size <= b * size
  {}

  /** What falling back does to one indexer's own counts. */
  lemma ReorgHere(x: Indexer, h: nat, canon: nat -> Hash)
    requires AllSized(x) && x.flight.None? && NestedHere(x)
    ensures var y := NewHead(x, h, true, canon);
      NestedHere(y) && Within(y, h) && y.cascaded <= x.cascaded && y.size == x.size && y.cpSections == x.cpSections
    ensures NewHead(x, h, true, canon).cascaded == x.cascaded ==> x.cascaded <= h
  {
    var floor := h / x.size;
    var known := if floor < x.cpSections then 0 else floor;
    var y := NewHead(x, h, true, canon);
    FallBack(x.size, h, floor, x.cpSections, x.stored, x.known, x.cascaded, known, y.stored, y.known, y.cascaded);
  }

  /** The arithmetic of falling back to block h, in numbers of sections and of blocks. */
  lemma FallBack(size: nat, h: nat, floor: nat, cp: nat, stored: nat, known: nat, cascaded: nat,
                 limit: nat, stored': nat, known': nat, cascaded': nat)
    requires 0 < size && floor == h / size && limit == (if floor < cp then 0 else floor)
    requires stored' == Min(stored, Max(floor, cp)) && known' == Min(known, limit) && cascaded' == Min(cascaded, limit * size)
    requires cascaded <= stored * size && (cp == 0 ==> stored <= known && stored * size <= cascaded + 1)
    ensures cascaded' <= stored' * size && (cp == 0 ==> stored' <= known' && stored' * size <= cascaded' + 1)
    ensures known' * size <= h + 1 && cascaded' <= h && limit * size <= h && (stored' <= cp || stored' * size <= h + 1)
  {
    Sections(h, size);
    MulLe(limit, floor, size);
    MulLe(known', limit, size);
    MulLe(stored', stored, size);
    if stored' <= floor { MulLe(stored', floor, size); }
    if floor <= stored' { MulLe(floor, stored', size); }
  }

  /** A reorg notification leaves no section past the fork anywhere below, although it is not always passed on. */
  lemma {:induction false} ReorgReachesAll(x: Indexer, h: nat, canon: nat -> Hash)
    requires AllSized(x) && Quiet(x) && Nested(x)
    ensures var y := NewHead(x, h, true, canon); Nested(y) && Within(y, h) && EndsBy(y, h) && Quiet(y)
    decreases x
  {
    var y := NewHead(x, h, true, canon);
    ReorgHere(x, h, canon);
    forall i | 0 <= i < |y.children|
      ensures Within(y.children[i], y.cascaded) && Nested(y.children[i]) && EndsBy(y.children[i], h) && Quiet(y.children[i])
    {
      if y.cascaded < x.cascaded {
        ReorgReachesAll(x.children[i], y.cascaded, canon);
        WithinEndsBy(y.children[i], y.cascaded, h);
      } else {
        WithinEndsBy(x.children[i], x.cascaded, h);
      }
    }
  }

  lemma WithinMore(c: Indexer, reach: nat, reach': nat)
    requires Within(c, reach) && reach <= reach'
    ensures Within(c, reach')
  {}

  /** Being told of a new head up to `reach` keeps a child within it. */
  lemma ToldWithin(c: Indexer, head: nat, reach: nat, canon: nat -> Hash)
    requires AllSized(c) && Nested(c) && Within(c, reach) && head <= reach
    ensures var d := NewHead(c, head, false, canon); Nested(d) && Within(d, reach)
  {}

  // The arithmetic of a commit: the announced block only moves up, and not past what is known.
  lemma CommitHere(x: Indexer, canon: nat -> Hash)
    requires AllSized(x) && NestedHere(x) && Enabled(x, Commit(canon))
    ensures var y := CommitSection(x, canon);
      && NestedHere(y) && x.cascaded <= y.cascaded
      && y.known * y.size <= x.known * x.size && (y.cascaded == x.cascaded || y.cascaded + 1 <= x.known * x.size)
      && (y.stored == x.stored || y.stored * y.size <= x.known * x.size) && y.size == x.size && y.cpSections == x.cpSections
  {
    hide NotifyAll;
    var f := x.flight.value;
    MulLe(f.section + 1, x.known, x.size);
    MulLe(x.stored, x.known, x.size);
    assert (f.section + 1) * x.size == f.section * x.size + x.size;
  }

  lemma CommitWithin(x: Indexer, canon: nat -> Hash, reach: nat)
    requires AllSized(x) && NestedHere(x) && Enabled(x, Commit(canon)) && Within(x, reach)
    ensures Within(CommitSection(x, canon), reach)
  {
    hide CommitSection, NestedHere;
    CommitHere(x, canon);
  }

  lemma CommitNested(x: Indexer, canon: nat -> Hash)
    requires AllSized(x) && Nested(x) && Enabled(x, Commit(canon))
    ensures var y := CommitSection(x, canon); Nested(y) && forall reach :: Within(x, reach) ==> Within(y, reach)
  {
    hide Within, NestedHere;
    var f, y := x.flight.value, CommitSection(x, canon);
    CommitHere(x, canon);
    forall reach | Within(x, reach) ensures Within(y, reach) { CommitWithin(x, canon, reach); }
    if f.oldHead == x.HeadBefore(f.section) {
      forall i | 0 <= i < |y.children|
        ensures Within(y.children[i], y.cascaded) && Nested(y.children[i])
      {
        WithinMore(x.children[i], x.cascaded, y.cascaded);
        ToldWithin(x.children[i], y.cascaded, y.cascaded, canon);
      }
    }
  }

  /** Attaching a child keeps the tree nested exactly if the child is told of no more than was announced. */
  lemma AdoptNested(x: Indexer, c: Indexer, canon: nat -> Hash)
    requires AllSized(x) && Nested(x) && Enabled(x, Adopt(c, canon))
    ensures Nested(Next(x, Adopt(c, canon))) <==> Safe(x, Adopt(c, canon))
  {
    var y, told := Next(x, Adopt(c, canon)), Told(x, c, canon);
    assert y.children[|x.children|] == told;
    assert Nested(told) && (Within(told, x.cascaded) <==> Safe(x, Adopt(c, canon)));
    forall i | 0 <= i < |x.children|
      ensures Within(y.children[i], y.cascaded) && Nested(y.children[i])
    {
      assert y.children[i] == x.children[i];
    }
  }

  /** A refused start keeps the tree nested exactly if the index held nothing. */
  lemma ResetNested(x: Indexer)
    requires AllSized(x) && Nested(x) && Enabled(x, ResetFails)
    ensures Nested(Next(x, ResetFails)) <==> Safe(x, ResetFails)
  {
  }

  /** A safe step keeps the tree nested, and a step of the indexer's own keeps it within its parent's reach. */
  lemma {:induction false} SafeStep(x: Indexer, s: Step)
    requires AllSized(x) && Nested(x) && Enabled(x, s) && Safe(x, s)
    ensures Nested(Next(x, s)) && (!s.Notify? ==> forall reach :: Within(x, reach) ==> Within(Next(x, s), reach))
    decreases s
  {
    var y := Next(x, s);
    match s
    case Notify(head, reorg, canon) =>
      if reorg {
        ReorgReachesAll(x, head, canon);
      } else {
        NotifiedNested(x, head, canon);
      }
    case Begin =>
    case Read(h) =>
    case ResetFails =>
      ResetNested(x);
    case Fail =>
      MulLe(x.stored, x.known, x.size);
    case Commit(canon) =>
      CommitNested(x, canon);
    case Adopt(c, canon) =>
      AdoptNested(x, c, canon);
    case Child(i, t) =>
      SafeStep(x.children[i], t);
      forall j | 0 <= j < |y.children|
        ensures Within(y.children[j], y.cascaded) && Nested(y.children[j])
      {
      }
  }

  lemma NotifiedNested(x: Indexer, head: nat, canon: nat -> Hash)
    requires AllSized(x) && Nested(x)
    ensures Nested(NewHead(x, head, false, canon))
  {}

  /**
   In every safe run from an empty index, right after a reorg notification to height h no indexer of
   the tree stores a section past its checkpoint that ends above h.
   */
  lemma {:induction false} ReorgAlwaysReachesAll(trace: seq<Indexer>, steps: seq<Step>, i: nat)
    requires IsTrace(trace, steps) && Fresh(trace[0]) && i < |trace|
    requires forall k :: 0 <= k < i ==> Safe(trace[k], steps[k])
    ensures Nested(trace[i])
    ensures 0 < i && steps[i - 1].Notify? && steps[i - 1].reorg ==> EndsBy(trace[i], steps[i - 1].head)
  {
    if 0 < i {
      ReorgAlwaysReachesAll(trace, steps, i - 1);
      SafeStep(trace[i - 1], steps[i - 1]);
      if steps[i - 1].Notify? && steps[i - 1].reorg {
        ReorgReachesAll(trace[i - 1], steps[i - 1].head, steps[i - 1].canon);
      }
    }
  }

  /**
   A reorg that lands while a fully read section waits for its commit: the commit still goes through
   unless the section lies past the fork's section, and the index then ends by the fork exactly when
   the fork is at or above the section's last block.
   */
  lemma ReorgDuringFlight(x: Indexer, h: nat, canon: nat -> Hash, anchored: bool)
    requires AllSized(x) && Consistent(x, anchored) && Enabled(x, Commit(canon))
    requires x.stored == x.flight.value.section && x.cpSections <= x.stored
    ensures var section, kept := x.stored, Max(h / x.size, x.cpSections);
      var z := CommitSection(NewHead(x, h, true, canon), canon);
      && z.stored == (if section <= kept then section + 1 else kept)
      && (z.stored <= x.cpSections || z.stored * x.size <= h + 1 <==> (section <= kept ==> (section + 1) * x.size <= h + 1))
  {
    var section, kept := x.stored, Max(h / x.size, x.cpSections);
    var y := NewHead(x, h, true, canon);
    NotifyKeepsOne(x, h, true, canon, anchored);
    CommitCheck(y, anchored);
    Sections(h, x.size);
  }

  /** Adds one step to a run in which only the step `odd` may be unsafe. */
  lemma Extend(trace: seq<Indexer>, steps: seq<Step>, odd: Step, s: Step) returns (trace': seq<Indexer>, steps': seq<Step>)
    requires IsTrace(trace, steps) && SafeBut(trace, steps, odd)
    requires var x := trace[|trace| - 1]; AllSized(x) && Enabled(x, s) && (s == odd || Safe(x, s))
    ensures trace' == trace + [Next(trace[|trace| - 1], s)] && steps' == steps + [s]
    ensures IsTrace(trace', steps') && SafeBut(trace', steps', odd)
  {
    trace', steps' := trace + [Next(trace[|trace| - 1], s)], steps + [s];
    forall i | 0 <= i < |steps'|
      ensures AllSized(trace'[i]) && Enabled(trace'[i], steps'[i]) && trace'[i + 1] == Next(trace'[i], steps'[i])
      ensures steps'[i] == odd || Safe(trace'[i], steps'[i])
    {
      assert trace'[i] == trace[i];
      if i < |steps| { assert steps'[i] == steps[i] && trace'[i + 1] == trace[i + 1]; }
    }
  }

  ghost predicate SafeBut(trace: seq<Indexer>, steps: seq<Step>, odd: Step)
    requires IsTrace(trace, steps)
  {
    forall i :: 0 <= i < |steps| ==> steps[i] == odd || Safe(trace[i], steps[i])
  }

  /** An idle indexer of section size 1 after its next section, which ends in the given head. */
  function WithSection(x: Indexer, head: Hash, canon: nat -> Hash): Indexer
    requires AllSized(x)
  {
    x.(heads := x.heads[x.stored := head], stored := x.stored + 1, count := x.stored + 1, cascaded := x.stored,
       children := NotifyAll(x.children, x.stored, false, canon))
  }

  /** The header is what the next section of an idle indexer of section size 1 needs. */
  predicate Fits(x: Indexer, h: Header) {
    && AllSized(x) && x.size == 1 && x.flight.None? && x.stored < x.known
    && h.number == x.stored && h.hash != ZERO_HASH && h.parent == x.HeadBefore(x.stored)
  }

  lemma SectionSteps(x: Indexer, h: Header, canon: nat -> Hash)
    requires Fits(x, h)
    ensures AllSized(x) && Enabled(x, Begin) && Safe(x, Begin)
    ensures var y := Next(x, Begin);
      && AllSized(y) && Enabled(y, Read(h)) && Safe(y, Read(h))
      && var z := Next(y, Read(h));
      && AllSized(z) && Enabled(z, Commit(canon)) && Safe(z, Commit(canon)) && AllSized(Next(z, Commit(canon)))
      && Next(z, Commit(canon)) == WithSection(x, h.hash, canon)
  {
    hide NotifyAll;
    var z := Next(Next(x, Begin), Read(h));
    assert z.flight.value.run == [h];
    var heads := x.heads[x.stored := h.hash];
    assert heads == map i | i in heads && !(x.stored + 1 <= i < x.stored) :: heads[i];
  }

  /** Three steps store the next section of the root. */
  lemma StoreNext(trace: seq<Indexer>, steps: seq<Step>, odd: Step, h: Header, canon: nat -> Hash)
    returns (trace': seq<Indexer>, steps': seq<Step>)
    requires IsTrace(trace, steps) && SafeBut(trace, steps, odd) && Fits(trace[|trace| - 1], h)
    ensures IsTrace(trace', steps') && SafeBut(trace', steps', odd) && trace <= trace' && steps <= steps' && |steps'| == |steps| + 3
    ensures trace'[|trace'| - 1] == WithSection(trace[|trace| - 1], h.hash, canon)
  {
    var x := trace[|trace| - 1];
    hide IsTrace, SafeBut, Next, WithSection;
    SectionSteps(x, h, canon);
    trace', steps' := Extend(trace, steps, odd, Begin);
    trace', steps' := Extend(trace', steps', odd, Read(h));
    trace', steps' := Extend(trace', steps', odd, Commit(canon));
  }

  lemma OnlyChildStep(x: Indexer, t: Step)
    requires AllSized(x) && |x.children| == 1 && Enabled(x.children[0], t) && !t.Notify?
    ensures Enabled(x, Child(0, t)) && (Safe(x, Child(0, t)) <==> Safe(x.children[0], t))
    ensures Next(x, Child(0, t)) == x.(children := [Next(x.children[0], t)])
    ensures AllSized(Next(x.children[0], t)) ==> AllSized(x.(children := [Next(x.children[0], t)]))
  {}

  /** Three steps store the next section of an only child. */
  lemma StoreNextBelow(trace: seq<Indexer>, steps: seq<Step>, odd: Step, h: Header, canon: nat -> Hash)
    returns (trace': seq<Indexer>, steps': seq<Step>)
    requires IsTrace(trace, steps) && SafeBut(trace, steps, odd)
    requires var x := trace[|trace| - 1]; AllSized(x) && |x.children| == 1 && Fits(x.children[0], h)
    ensures IsTrace(trace', steps') && SafeBut(trace', steps', odd) && trace <= trace' && steps <= steps' && |steps'| == |steps| + 3
    ensures var x := trace[|trace| - 1];
      trace'[|trace'| - 1] == x.(children := [WithSection(x.children[0], h.hash, canon)])
  {
    var x := trace[|trace| - 1];
    hide IsTrace, SafeBut, Next, Enabled, Safe, AllSized, WithSection;
    var c := x.children[0];
    var d := Next(c, Begin);
    var e := Next(d, Read(h));
    SectionSteps(c, h, canon);
    OnlyChildStep(x, Begin);
    OnlyChildStep(x.(children := [d]), Read(h));
    OnlyChildStep(x.(children := [e]), Commit(canon));
    trace', steps' := Extend(trace, steps, odd, Child(0, Begin));
    trace', steps' := Extend(trace', steps', odd, Child(0, Read(h)));
    trace', steps' := Extend(trace', steps', odd, Child(0, Commit(canon)));
  }

  /** A fresh indexer of section size 1 with the given checkpoint. */
  function Blank(cpSections: nat, cpHead: Hash): Indexer {
    Indexer(1, 0, cpSections, cpHead, cpSections, 0, 0, cpSections, if cpSections == 0 then map[] else map[cpSections - 1 := cpHead], None, [])
  }

  /** The first n of two sections of size 1. */
  function Filled(n: nat): Indexer
    requires n <= 2
  {
    var x := Blank(0, ZERO_HASH);
    if n == 0 then x
    else if n == 1 then x.(heads := map[0 := 1], stored := 1, count := 1, cascaded := 0)
    else x.(heads := map[0 := 1, 1 := 2], stored := 2, count := 2, cascaded := 1)
  }

  const FIRST := Header(1, ZERO_HASH, 0)
  const SECOND := Header(2, 1, 1)

  lemma FilledOne(known: nat, children: seq<Indexer>, canon: nat -> Hash)
    requires 1 <= known && forall i :: 0 <= i < |children| ==> AllSized(children[i])
    ensures var x := Filled(0).(known := known, children := children);
      Fits(x, FIRST)
      && WithSection(x, 1, canon) == Filled(1).(known := known, children := NotifyAll(children, 0, false, canon))
  {
    hide NotifyAll;
  }

  lemma FilledTwo(known: nat, children: seq<Indexer>, canon: nat -> Hash)
    requires 2 <= known && forall i :: 0 <= i < |children| ==> AllSized(children[i])
    ensures var x := Filled(1).(known := known, children := children);
      Fits(x, SECOND)
      && WithSection(x, 2, canon) == Filled(2).(known := known, children := NotifyAll(children, 1, false, canon))
  {
    hide NotifyAll;
    assert map[0 := 1, 1 := 2] == map[0 := 1][1 := 2];
  }

  /** Both sections of an only child, after any run that ends with the child told of both. */
  lemma FillBelow(trace: seq<Indexer>, steps: seq<Step>, odd: Step, canon: nat -> Hash)
    returns (trace': seq<Indexer>, steps': seq<Step>)
    requires IsTrace(trace, steps) && SafeBut(trace, steps, odd)
    requires var x := trace[|trace| - 1]; AllSized(x) && x.children == [Filled(0).(known := 2)]
    ensures IsTrace(trace', steps') && SafeBut(trace', steps', odd) && trace <= trace' && steps <= steps'
    ensures trace'[|trace'| - 1] == trace[|trace| - 1].(children := [Filled(2).(known := 2)])
  {
    var x := trace[|trace| - 1];
    hide IsTrace, SafeBut, WithSection, Filled, Fits;
    FilledOne(2, [], canon);
    FilledTwo(2, [], canon);
    FilledChildren(2);
    assert NotifyAll([], 0, false, canon) == [] == NotifyAll([], 1, false, canon);
    trace', steps' := StoreNextBelow(trace, steps, odd, FIRST, canon);
    assert AllSized(x.(children := [Filled(1).(known := 2)]));
    trace', steps' := StoreNextBelow(trace', steps', odd, SECOND, canon);
  }

  lemma FilledChildren(known: nat)
    ensures forall n: nat :: n <= 2 ==> Filled(n).children == [] && AllSized(Filled(n).(known := known))
    ensures forall n: nat :: n <= 2 ==> Filled(n).(known := known) == Filled(n).(known := known, children := [])
  {}

  /** A rollback to h that lowers nothing announced does not reach an only child with two sections. */
  lemma NotPassedOn(x: Indexer, h: nat, canon: nat -> Hash)
    requires x.size == 1 && x.flight.None? && x.children == [Filled(2).(known := 2)] && x.cascaded == h == 0
    ensures AllSized(x) && Quiet(x) && !EndsBy(NewHead(x, h, true, canon), h)
  {
    assert !EndsBy(x.children[0], h);
  }

  /**
   A child attached to an indexer that knows its checkpoint but has announced nothing: it is told of
   the checkpoint's sections, and a later rollback below them is not passed on to it.
   */
  lemma LateChildMissesReorg(canon: nat -> Hash) returns (trace: seq<Indexer>, steps: seq<Step>)
    requires canon(1) != ZERO_HASH
    ensures IsTrace(trace, steps) && Fresh(trace[0]) && SafeBut(trace, steps, Adopt(Filled(0), canon))
    ensures steps != [] && steps[|steps| - 1] == Notify(0, true, canon) && !EndsBy(trace[|trace| - 1], 0)
  {
    var root, odd := Blank(2, canon(1)), Adopt(Filled(0), canon);
    trace, steps := [root], [];
    trace, steps := Extend(trace, steps, odd, Notify(1, false, canon));
    assert trace[1] == root.(known := 2);
    trace, steps := Extend(trace, steps, odd, odd);
    assert trace[2] == root.(known := 2, children := [Filled(0).(known := 2)]);
    trace, steps := FillBelow(trace, steps, odd, canon);
    NotPassedOn(root.(known := 2, children := [Filled(2).(known := 2)]), 0, canon);
    trace, steps := Extend(trace, steps, odd, Notify(0, true, canon));
  }

  /** Root and child hold both sections, and the root is about to process its third. */
  function TwoStored(): Indexer {
    Filled(2).(known := 3, flight := Some(Flight(2, 2, [], false)), children := [Filled(2).(known := 2)])
  }

  /** The root stores both sections and tells its child of them. */
  lemma ReachBoth(canon: nat -> Hash, odd: Step) returns (trace: seq<Indexer>, steps: seq<Step>)
    ensures IsTrace(trace, steps) && Fresh(trace[0]) && SafeBut(trace, steps, odd)
    ensures trace[|trace| - 1] == Filled(2).(known := 2, children := [Filled(0).(known := 2)])
  {
    var child := Filled(0);
    trace, steps := [child], [];
    trace, steps := Extend(trace, steps, odd, Adopt(child, canon));
    trace, steps := Extend(trace, steps, odd, Notify(1, false, canon));
    assert trace[2] == child.(known := 2, children := [child]);
    TellFilled(canon);
    hide NotifyAll, NewHead, Next, WithSection, Fits, Enabled, Safe, Filled, IsTrace, SafeBut;
    FilledOne(2, [child], canon);
    trace, steps := StoreNext(trace, steps, odd, FIRST, canon);
    FilledTwo(2, [child.(known := 1)], canon);
    trace, steps := StoreNext(trace, steps, odd, SECOND, canon);
  }

  lemma TellFilled(canon: nat -> Hash)
    ensures AllSized(Filled(0)) && AllSized(Filled(0).(known := 1))
    ensures NotifyAll([Filled(0)], 0, false, canon) == [Filled(0).(known := 1)]
    ensures NotifyAll([Filled(0).(known := 1)], 1, false, canon) == [Filled(0).(known := 2)]
  {}

  /** The run that gets there from a fresh root. */
  lemma ReachTwoStored(canon: nat -> Hash, odd: Step) returns (trace: seq<Indexer>, steps: seq<Step>)
    ensures IsTrace(trace, steps) && Fresh(trace[0]) && SafeBut(trace, steps, odd)
    ensures trace[|trace| - 1] == TwoStored()
  {
    trace, steps := ReachBoth(canon, odd);
    trace, steps := FillBelow(trace, steps, odd, canon);
    trace, steps := Extend(trace, steps, odd, Notify(2, false, canon));
    trace, steps := Extend(trace, steps, odd, Begin);
  }

  /** The root's index after a refused start, told of its sections again. */
  function Emptied(): Indexer {
    Filled(0).(known := 3, cascaded := 1, children := [Filled(2).(known := 2)])
  }

  lemma EmptiedSteps(canon: nat -> Hash)
    ensures var x := TwoStored(); AllSized(x) && Enabled(x, ResetFails)
    ensures var y := Next(TwoStored(), ResetFails); AllSized(y) && Enabled(y, Fail)
    ensures var z := Next(Next(TwoStored(), ResetFails), Fail); AllSized(z) && Next(z, Notify(2, false, canon)) == Emptied()
  {
    var x := TwoStored();
    assert Next(Next(x, ResetFails), Fail) == Emptied().(known := 0);
  }

  lemma EmptiedSection(canon: nat -> Hash)
    ensures Fits(Emptied(), FIRST)
    ensures WithSection(Emptied(), 1, canon) == Filled(1).(known := 3, children := [Filled(2).(known := 2)])
  {}

  /**
   A refused start empties an index without telling the children; the next commit then lowers what
   counts as announced, and a later rollback is not passed on.
   */
  lemma RefusedResetStopsCascade(canon: nat -> Hash) returns (trace: seq<Indexer>, steps: seq<Step>)
    ensures IsTrace(trace, steps) && Fresh(trace[0]) && SafeBut(trace, steps, ResetFails)
    ensures steps != [] && steps[|steps| - 1] == Notify(0, true, canon) && !EndsBy(trace[|trace| - 1], 0)
  {
    trace, steps := ReachTwoStored(canon, ResetFails);
    EmptiedSteps(canon);
    EmptiedSection(canon);
    NotPassedOn(Filled(1).(known := 3, children := [Filled(2).(known := 2)]), 0, canon);
    hide IsTrace, SafeBut, Fits, WithSection, TwoStored, Emptied, EndsBy, Filled, NewHead, NotifyAll, AllSized;
    trace, steps := Extend(trace, steps, ResetFails, ResetFails);
    trace, steps := Extend(trace, steps, ResetFails, Fail);
    trace, steps := Extend(trace, steps, ResetFails, Notify(2, false, canon));
    trace, steps := StoreNext(trace, steps, ResetFails, FIRST, canon);
    trace, steps := Extend(trace, steps, ResetFails, Notify(0, true, canon));
  }
}
