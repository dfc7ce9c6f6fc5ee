/** Clause blocks, the link cells that chain them and the ends of the chains.

    The memory of a dynamic predicate is explicit: links and blocks hold what is allocated, an
    address not in them is not allocated, and reading through it is an error.  delete removes
    an address.  Address 0 is NULL.  An address is never handed out twice.
 */
module ClauseChains {
  import opened DynamicHashTable

  type Ptr = nat
  const NULL: Ptr := 0

  /** WORD32_MAX: the deletion stamp of a clause that has not been retracted. */
  const NEVER: nat := 0xFFFF_FFFF

  /** A clause: its key is that of its indexed argument (tag 0 for a variable). */
  datatype CodeBlock = CodeBlock(created: nat, deleted: nat, key: Key) {
    predicate IsAlive(ts: nat) { created <= ts < deleted }

    predicate ToDelete(ts: nat) { ts >= deleted }
  }

  datatype LinkedClause = LinkedClause(block: Ptr, next: Ptr)

  datatype ChainEnds = ChainEnds(first: Ptr, last: Ptr)

  /** The chain of all clauses, the chain of clauses with a variable in the indexed argument, and
      the chains of the hash table. */
  datatype ChainRef = AllChain | VarChain | Hashed(n: nat)

  type Links = map<Ptr, LinkedClause>
  type Blocks = map<Ptr, CodeBlock>

  // ------------------------------------------------------------------
  // Specification: the cells ps hold a chain
  // ------------------------------------------------------------------

  ghost function NextOf(ps: seq<Ptr>, i: nat): Ptr {
    if i + 1 < |ps| then ps[i + 1] else NULL
  }

  ghost predicate Distinct(ps: seq<Ptr>) {
    forall i, j :: 0 <= i < j < |ps| ==> ps[i] != ps[j]
  }

  ghost predicate Linked(links: Links, ps: seq<Ptr>) {
    && Distinct(ps)
    && forall i :: 0 <= i < |ps| ==> ps[i] != NULL && ps[i] in links && links[ps[i]].next == NextOf(ps, i)
  }

  ghost predicate EndsOk(e: ChainEnds, ps: seq<Ptr>) {
    if ps == [] then e == ChainEnds(NULL, NULL) else e == ChainEnds(ps[0], ps[|ps| - 1])
  }

  /** The cells ps hold the blocks bs. */
  ghost predicate Holds(links: Links, ps: seq<Ptr>, bs: seq<Ptr>) {
    |ps| == |bs| && forall i {:trigger ps[i]} {:trigger bs[i]} :: 0 <= i < |ps| ==> ps[i] in links && links[ps[i]].block == bs[i]
  }

  /** bs with b added at one end. */
  function WithAdded(bs: seq<Ptr>, b: Ptr, front: bool): seq<Ptr> {
    if front then [b] + bs else bs + [b]
  }

  /** bs without the elements of dead. */
  function Without(bs: seq<Ptr>, dead: set<Ptr>): (r: seq<Ptr>)
    ensures forall b :: b in r <==> b in bs && b !in dead
  {
    if bs == [] then []
    else Without(bs[..|bs| - 1], dead) + (if bs[|bs| - 1] in dead then [] else [bs[|bs| - 1]])
  }

  lemma {:induction false} WithoutDistinct(ps: seq<Ptr>, dead: set<Ptr>)
    requires Distinct(ps)
    ensures Distinct(Without(ps, dead))
  {
    if ps != [] { WithoutDistinct(ps[..|ps| - 1], dead); }
  }

  /** The cells of ps whose block is in dead. */
  ghost function DeadCells(links: Links, ps: seq<Ptr>, dead: set<Ptr>): (s: set<Ptr>)
    requires forall p :: p in ps ==> p in links
    ensures forall p :: p in s <==> p in ps && links[p].block in dead
  {
    set p | p in ps && links[p].block in dead
  }

  lemma WithoutSnoc(bs: seq<Ptr>, b: Ptr, dead: set<Ptr>)
    ensures Without(bs + [b], dead) == Without(bs, dead) + (if b in dead then [] else [b])
  {
    assert (bs + [b])[..|bs + [b]| - 1] == bs;
  }

  /** links' keeps the cells of ps that are not in cells, and cells are those with a dead block. */
  ghost predicate Survive(links: Links, links': Links, ps: seq<Ptr>, dead: set<Ptr>, cells: set<Ptr>) {
    && (forall p :: p in ps ==> p in links && (p in cells <==> links[p].block in dead))
    && (forall p :: p in ps && p !in cells ==> p in links' && links'[p].block == links[p].block)
  }

  lemma WithoutMembers(bs: seq<Ptr>, dead: set<Ptr>)
    ensures forall b :: b in Without(bs, dead) <==> b in bs && b !in dead
  {
  }

  /** Clauses retracted at the given time. */
  ghost function Retracted(blocks: Blocks, time: nat): (s: set<Ptr>)
    ensures forall b :: b in s <==> b in blocks && blocks[b].ToDelete(time)
  {
    set b | b in blocks && blocks[b].ToDelete(time)
  }

  /** What is left of blocks when the retracted clauses of bs go. */
  ghost function Kept(blocks: Blocks, bs: seq<Ptr>, time: nat): (m: Blocks) {
    map b | b in blocks && !(b in bs && blocks[b].ToDelete(time)) :: blocks[b]
  }

  /** The index of the first clause of bs, from index i on, that is alive at time ts. */
  ghost function FirstAlive(blocks: Blocks, bs: seq<Ptr>, i: nat, ts: nat): nat
    decreases |bs| - i
  {
    if i < |bs| && !(bs[i] in blocks && blocks[bs[i]].IsAlive(ts)) then FirstAlive(blocks, bs, i + 1, ts) else i
  }

  // ------------------------------------------------------------------
  // Sweeping a chain
  // ------------------------------------------------------------------

  function At(ps: seq<Ptr>, i: nat): Ptr {
    if i < |ps| then ps[i] else NULL
  }

  /** The cells kept, with the blocks they had in links0, are linked to one another and the
      last of them to tail. */
  ghost predicate KeptLinked(links0: Links, links: Links, kept: seq<Ptr>, tail: Ptr) {
    forall k {:trigger kept[k]} :: 0 <= k < |kept| ==>
      && kept[k] in links && kept[k] in links0 && links[kept[k]].block == links0[kept[k]].block
      && links[kept[k]].next == if k + 1 < |kept| then kept[k + 1] else tail
  }

  /** The cells done of links0 have been swept: those in cells are gone, the others are kept. */
  ghost predicate Sweep(links0: Links, links: Links, done: seq<Ptr>, kept: seq<Ptr>, cells: set<Ptr>, tail: Ptr) {
    && (forall p :: p in links <==> p in links0 && !(p in done && p in cells))
    && (forall p :: p in links && p !in kept ==> links[p] == links0[p])
    && (forall p :: p in kept <==> p in done && p !in cells)
    && Distinct(kept) && KeptLinked(links0, links, kept, tail)
  }

  lemma SweepDead(links0: Links, links: Links, done: seq<Ptr>, kept: seq<Ptr>, cells: set<Ptr>, tail: Ptr, p: Ptr)
    requires Sweep(links0, links, done, kept, cells, tail) && p in links0 && p !in done && p in cells
    ensures p in links && links[p] == links0[p]
    ensures Sweep(links0, links - {p}, done + [p], kept, cells, tail)
  {
    assert forall q :: q in done + [p] <==> q in done || q == p;
  }

  lemma SweepKeep(links0: Links, links: Links, done: seq<Ptr>, kept: seq<Ptr>, cells: set<Ptr>, p: Ptr)
    requires Sweep(links0, links, done, kept, cells, p) && p in links0 && p !in done && p !in cells
    ensures p in links && links[p] == links0[p]
    ensures Sweep(links0, links, done + [p], kept + [p], cells, links0[p].next)
  {
    assert forall q :: q in done + [p] <==> q in done || q == p;
    assert forall q :: q in kept + [p] <==> q in kept || q == p;
    assert links[p] == links0[p];
    KeepLinked(links0, links, kept, p);
  }

  lemma KeepLinked(links0: Links, links: Links, kept: seq<Ptr>, p: Ptr)
    requires KeptLinked(links0, links, kept, p) && p in links && p in links0 && links[p] == links0[p]
    ensures KeptLinked(links0, links, kept + [p], links0[p].next)
  {
    var kept' := kept + [p];
    forall k | 0 <= k < |kept'|
      ensures kept'[k] in links && kept'[k] in links0 && links[kept'[k]].block == links0[kept'[k]].block
      ensures links[kept'[k]].next == if k + 1 < |kept'| then kept'[k + 1] else links0[p].next
    {
      if k < |kept| { assert kept'[k] == kept[k]; }
    }
  }

  lemma SweepSetNext(links0: Links, links: Links, done: seq<Ptr>, kept: seq<Ptr>, cells: set<Ptr>, tail: Ptr, step: Ptr)
    requires Sweep(links0, links, done, kept, cells, tail) && kept != []
    ensures var follower := kept[|kept| - 1];
            && follower in links
            && Sweep(links0, links[follower := LinkedClause(links[follower].block, step)], done, kept, cells, step)
  {
    var follower := kept[|kept| - 1];
    LinkSet(links0, links, kept, tail, step);
    assert follower in kept;
    hide KeptLinked, Distinct;
  }

  /** The last cell kept is linked to step instead. */
  lemma LinkSet(links0: Links, links: Links, kept: seq<Ptr>, tail: Ptr, step: Ptr)
    requires KeptLinked(links0, links, kept, tail) && Distinct(kept) && kept != []
    ensures var follower := kept[|kept| - 1];
            && follower in links && follower in links0
            && KeptLinked(links0, links[follower := LinkedClause(links[follower].block, step)], kept, step)
  {
    var follower := kept[|kept| - 1];
    var links' := links[follower := LinkedClause(links[follower].block, step)];
    forall k | 0 <= k < |kept| - 1 ensures kept[k] in links && links'[kept[k]] == links[kept[k]] {}
  }

  /** When the whole chain has been swept what is left is the chain of the surviving cells. */
  lemma SweepEnd(links0: Links, links: Links, ps: seq<Ptr>, kept: seq<Ptr>, cells: set<Ptr>)
    requires Linked(links0, ps) && Sweep(links0, links, ps, kept, cells, NULL) && kept == Without(ps, cells)
    ensures Linked(links, kept)
    ensures forall p :: p in links <==> p in links0 && !(p in ps && p in cells)
    ensures forall p :: p in links && p !in ps ==> links[p] == links0[p]
    ensures forall p :: p in links && p in ps ==> links[p].block == links0[p].block
  {
    forall p | p in links && p in ps ensures links[p].block == links0[p].block {
      var k :| 0 <= k < |kept| && kept[k] == p;
    }
    forall k | 0 <= k < |kept| ensures kept[k] != NULL && kept[k] in links && links[kept[k]].next == NextOf(kept, k) {
      assert kept[k] in ps;
    }
  }

  /** The blocks of the cells of done that are in cells. */
  ghost function Gone(links0: Links, done: seq<Ptr>, cells: set<Ptr>): (s: set<Ptr>)
    requires forall p :: p in done ==> p in links0
    ensures forall p :: p in done && p in cells ==> links0[p].block in s
    ensures forall b :: b in s ==> exists p :: p in done && p in cells && links0[p].block == b
  {
    set p | p in done && p in cells :: links0[p].block
  }

  /** What garbage collecting the chain ps needs: cells are the cells of retracted clauses, and
      when their blocks go too no block is on the chain twice. */
  ghost predicate GcStart(links0: Links, blocks0: Blocks, ps: seq<Ptr>, cells: set<Ptr>, time: nat, deleteBlock: bool) {
    && Linked(links0, ps)
    && (forall p :: p in ps ==> p in links0 && links0[p].block in blocks0
                                && (p in cells <==> blocks0[links0[p].block].ToDelete(time)))
    && (deleteBlock ==> forall p, q :: p in ps && q in ps && links0[p].block == links0[q].block ==> p == q)
  }

  ghost predicate GcState(links0: Links, blocks0: Blocks, links: Links, blocks: Blocks, ps: seq<Ptr>, i: nat,
                          kept: seq<Ptr>, cells: set<Ptr>, tail: Ptr, deleteBlock: bool)
  {
    && i <= |ps| && (forall p :: p in ps ==> p in links0)
    && Sweep(links0, links, ps[..i], kept, cells, tail) && kept == Without(ps[..i], cells)
    && blocks == if deleteBlock then blocks0 - Gone(links0, ps[..i], cells) else blocks0
  }

  lemma GcBegin(links0: Links, blocks0: Blocks, ps: seq<Ptr>, cells: set<Ptr>, time: nat, tail: Ptr, deleteBlock: bool)
    requires GcStart(links0, blocks0, ps, cells, time, deleteBlock)
    ensures GcState(links0, blocks0, links0, blocks0, ps, 0, [], cells, tail, deleteBlock)
  {
  }

  /** The next cell is allocated, and so is its block. */
  lemma GcLook(links0: Links, blocks0: Blocks, links: Links, blocks: Blocks, ps: seq<Ptr>, i: nat,
               kept: seq<Ptr>, cells: set<Ptr>, tail: Ptr, time: nat, deleteBlock: bool)
    requires GcStart(links0, blocks0, ps, cells, time, deleteBlock) && i < |ps|
    requires GcState(links0, blocks0, links, blocks, ps, i, kept, cells, tail, deleteBlock)
    ensures ps[i] != NULL && ps[i] in links && links[ps[i]] == links0[ps[i]]
    ensures links[ps[i]].block in blocks && blocks[links[ps[i]].block] == blocks0[links[ps[i]].block]
    ensures blocks[links[ps[i]].block].ToDelete(time) <==> ps[i] in cells
    ensures links[ps[i]].next == At(ps, i + 1)
  {
    assert ps[i] in ps && ps[i] !in ps[..i];
    if deleteBlock {
      assert forall p :: p in ps[..i] ==> p in ps;
      assert links0[ps[i]].block !in Gone(links0, ps[..i], cells);
    }
  }

  lemma PrefixSplit(links0: Links, ps: seq<Ptr>, i: nat, cells: set<Ptr>)
    requires Linked(links0, ps) && i < |ps|
    ensures ps[..i + 1] == ps[..i] + [ps[i]] && ps[i] in ps && ps[i] !in ps[..i] && ps[i] in links0
    ensures forall p :: p in ps ==> p in links0
    ensures forall p :: p in ps[..i] ==> p in links0
    ensures forall p :: p in ps[..i + 1] ==> p in links0
    ensures Gone(links0, ps[..i + 1], cells) ==
            Gone(links0, ps[..i], cells) + if ps[i] in cells then {links0[ps[i]].block} else {}
  {
    hide Gone;
    PrefixMembers(ps, i);
    assert forall p :: p in ps ==> p in links0;
    GoneSnoc(links0, ps[..i], ps[i], cells);
  }

  lemma PrefixMembers(ps: seq<Ptr>, i: nat)
    requires Distinct(ps) && i < |ps|
    ensures ps[..i + 1] == ps[..i] + [ps[i]] && ps[i] in ps && ps[i] !in ps[..i]
    ensures forall p :: p in ps[..i] || p in ps[..i + 1] ==> p in ps
  {
  }

  lemma GoneSnoc(links0: Links, done: seq<Ptr>, p: Ptr, cells: set<Ptr>)
    requires p in links0 && forall q :: q in done ==> q in links0
    ensures Gone(links0, done + [p], cells) == Gone(links0, done, cells) + if p in cells then {links0[p].block} else {}
  {
    var ds := done + [p];
    assert forall q :: q in ds <==> q in done || q == p;
    forall b | b in Gone(links0, ds, cells)
      ensures b in Gone(links0, done, cells) + if p in cells then {links0[p].block} else {}
    {
      var q :| q in ds && q in cells && links0[q].block == b;
    }
  }

  lemma GcDrop(links0: Links, blocks0: Blocks, links: Links, blocks: Blocks, ps: seq<Ptr>, i: nat,
               kept: seq<Ptr>, cells: set<Ptr>, tail: Ptr, time: nat, deleteBlock: bool)
    requires GcStart(links0, blocks0, ps, cells, time, deleteBlock) && i < |ps| && ps[i] in cells
    requires GcState(links0, blocks0, links, blocks, ps, i, kept, cells, tail, deleteBlock)
    ensures GcState(links0, blocks0, links - {ps[i]}, if deleteBlock then blocks - {links0[ps[i]].block} else blocks,
                    ps, i + 1, kept, cells, tail, deleteBlock)
  {
    hide Sweep, Without, Linked, Gone;
    PrefixSplit(links0, ps, i, cells);
    SweepDead(links0, links, ps[..i], kept, cells, tail, ps[i]);
    WithoutSnoc(ps[..i], ps[i], cells);
    assert kept + [] == kept;
  }

  lemma GcKeep(links0: Links, blocks0: Blocks, links: Links, blocks: Blocks, ps: seq<Ptr>, i: nat,
               kept: seq<Ptr>, cells: set<Ptr>, time: nat, deleteBlock: bool)
    requires GcStart(links0, blocks0, ps, cells, time, deleteBlock) && i < |ps| && ps[i] !in cells
    requires GcState(links0, blocks0, links, blocks, ps, i, kept, cells, ps[i], deleteBlock)
    ensures GcState(links0, blocks0, links, blocks, ps, i + 1, kept + [ps[i]], cells, At(ps, i + 1), deleteBlock)
  {
    hide Sweep, Without, Gone;
    assert links0[ps[i]].next == At(ps, i + 1);
    PrefixSplit(links0, ps, i, cells);
    SweepKeep(links0, links, ps[..i], kept, cells, ps[i]);
    WithoutSnoc(ps[..i], ps[i], cells);
  }

  lemma GcSetNext(links0: Links, blocks0: Blocks, links: Links, blocks: Blocks, ps: seq<Ptr>, i: nat,
                  kept: seq<Ptr>, cells: set<Ptr>, tail: Ptr, step: Ptr, deleteBlock: bool)
    requires GcState(links0, blocks0, links, blocks, ps, i, kept, cells, tail, deleteBlock) && kept != []
    ensures var follower := kept[|kept| - 1];
            && follower in links
            && GcState(links0, blocks0, links[follower := LinkedClause(links[follower].block, step)], blocks,
                       ps, i, kept, cells, step, deleteBlock)
  {
    SweepSetNext(links0, links, ps[..i], kept, cells, tail, step);
  }

  /** The next cell to look at, if there is one, is allocated, and so is its block. */
  ghost predicate Ready(links: Links, blocks: Blocks, ps: seq<Ptr>, i: nat, cells: set<Ptr>, time: nat) {
    i < |ps| ==>
      && ps[i] != NULL && ps[i] in links && links[ps[i]].block in blocks
      && (blocks[links[ps[i]].block].ToDelete(time) <==> ps[i] in cells)
      && links[ps[i]].next == At(ps, i + 1)
  }

  /** The sweep of the chain ps has reached cell i. */
  ghost predicate GcAt(links0: Links, blocks0: Blocks, links: Links, blocks: Blocks, ps: seq<Ptr>, i: nat,
                       kept: seq<Ptr>, cells: set<Ptr>, tail: Ptr, time: nat, deleteBlock: bool)
  {
    && GcStart(links0, blocks0, ps, cells, time, deleteBlock)
    && GcState(links0, blocks0, links, blocks, ps, i, kept, cells, tail, deleteBlock)
    && Ready(links, blocks, ps, i, cells, time) && i <= |ps|
  }

  lemma AtBegin(links0: Links, blocks0: Blocks, ps: seq<Ptr>, cells: set<Ptr>, time: nat, tail: Ptr, deleteBlock: bool)
    requires GcStart(links0, blocks0, ps, cells, time, deleteBlock)
    ensures GcAt(links0, blocks0, links0, blocks0, ps, 0, [], cells, tail, time, deleteBlock)
  {
    GcBegin(links0, blocks0, ps, cells, time, tail, deleteBlock);
    if ps != [] { GcLook(links0, blocks0, links0, blocks0, ps, 0, [], cells, tail, time, deleteBlock); }
  }

  lemma AtDrop(links0: Links, blocks0: Blocks, links: Links, blocks: Blocks, ps: seq<Ptr>, i: nat,
               kept: seq<Ptr>, cells: set<Ptr>, tail: Ptr, time: nat, deleteBlock: bool)
    requires GcAt(links0, blocks0, links, blocks, ps, i, kept, cells, tail, time, deleteBlock)
    requires i < |ps| && ps[i] in cells
    ensures ps[i] in links
    ensures GcAt(links0, blocks0, links - {ps[i]}, if deleteBlock then blocks - {links[ps[i]].block} else blocks,
                 ps, i + 1, kept, cells, tail, time, deleteBlock)
  {
    hide GcStart, GcState;
    GcLook(links0, blocks0, links, blocks, ps, i, kept, cells, tail, time, deleteBlock);
    GcDrop(links0, blocks0, links, blocks, ps, i, kept, cells, tail, time, deleteBlock);
    var links', blocks' := links - {ps[i]}, if deleteBlock then blocks - {links[ps[i]].block} else blocks;
    if i + 1 < |ps| { GcLook(links0, blocks0, links', blocks', ps, i + 1, kept, cells, tail, time, deleteBlock); }
  }

  lemma AtKeep(links0: Links, blocks0: Blocks, links: Links, blocks: Blocks, ps: seq<Ptr>, i: nat,
               kept: seq<Ptr>, cells: set<Ptr>, time: nat, deleteBlock: bool)
    requires i < |ps| && ps[i] !in cells
    requires GcAt(links0, blocks0, links, blocks, ps, i, kept, cells, ps[i], time, deleteBlock)
    ensures GcAt(links0, blocks0, links, blocks, ps, i + 1, kept + [ps[i]], cells, At(ps, i + 1), time, deleteBlock)
  {
    hide GcStart, GcState;
    GcKeep(links0, blocks0, links, blocks, ps, i, kept, cells, time, deleteBlock);
    if i + 1 < |ps| {
      GcLook(links0, blocks0, links, blocks, ps, i + 1, kept + [ps[i]], cells, At(ps, i + 1), time, deleteBlock);
    }
  }

  lemma AtSetNext(links0: Links, blocks0: Blocks, links: Links, blocks: Blocks, ps: seq<Ptr>, i: nat,
                  kept: seq<Ptr>, cells: set<Ptr>, tail: Ptr, time: nat, deleteBlock: bool)
    requires GcAt(links0, blocks0, links, blocks, ps, i, kept, cells, tail, time, deleteBlock) && kept != []
    ensures var follower, step := kept[|kept| - 1], At(ps, i);
            && follower in links
            && GcAt(links0, blocks0, links[follower := LinkedClause(links[follower].block, step)], blocks,
                    ps, i, kept, cells, step, time, deleteBlock)
  {
    hide GcStart, GcState;
    var follower, step := kept[|kept| - 1], At(ps, i);
    GcSetNext(links0, blocks0, links, blocks, ps, i, kept, cells, tail, step, deleteBlock);
    var links' := links[follower := LinkedClause(links[follower].block, step)];
    if i < |ps| { GcLook(links0, blocks0, links', blocks, ps, i, kept, cells, step, time, deleteBlock); }
  }

  lemma AtEnd(links0: Links, blocks0: Blocks, links: Links, blocks: Blocks, ps: seq<Ptr>,
              kept: seq<Ptr>, cells: set<Ptr>, tail: Ptr, time: nat, deleteBlock: bool)
    requires GcAt(links0, blocks0, links, blocks, ps, |ps|, kept, cells, tail, time, deleteBlock)
    requires tail == NULL || kept == []
    ensures kept == Without(ps, cells) && Linked(links, kept)
    ensures forall p :: p in links <==> p in links0 && !(p in ps && p in cells)
    ensures forall p :: p in links && p !in ps ==> links[p] == links0[p]
    ensures forall p :: p in links && p in ps ==> links[p].block == links0[p].block
    ensures forall p :: p in ps ==> p in links0
    ensures blocks == if deleteBlock then blocks0 - Gone(links0, ps, cells) else blocks0
  {
    assert ps[..|ps|] == ps;
    if kept == [] { assert Sweep(links0, links, ps, kept, cells, NULL); }
    SweepEnd(links0, links, ps, kept, cells);
  }
}
