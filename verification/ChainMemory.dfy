/** The chains of one dynamic predicate, changed in place: link cells and blocks are allocated,
    relinked and deleted in an explicit memory.
 */
module ChainMemory {
  import opened ClauseChains
  import opened DynamicHashTable

  type Spines = map<ChainRef, seq<Ptr>>
  type Ends = map<ChainRef, ChainEnds>
  type Owners = map<Ptr, ChainRef>

  /** The cells ps are linked into a chain with the given ends, and hold the blocks bs. */
  ghost predicate ChainOk(links: Links, e: ChainEnds, ps: seq<Ptr>, bs: seq<Ptr>) {
    Linked(links, ps) && EndsOk(e, ps) && Holds(links, ps, bs)
  }

  ghost predicate ChainsOk(links: Links, ends: Ends, spine: Spines, chains: Spines) {
    && ends.Keys == spine.Keys == chains.Keys
    && forall c :: c in spine ==> ChainOk(links, ends[c], spine[c], chains[c])
  }

  /** Every allocated cell is on exactly one chain. */
  ghost predicate OwnersOk(spine: Spines, owner: Owners) {
    && (forall p :: p in owner ==> owner[p] in spine)
    && forall c, p :: c in spine ==> (p in spine[c] <==> p in owner && owner[p] == c)
  }

  ghost predicate CellsOk(links: Links, blocks: Blocks, owner: Owners, top: Ptr) {
    && top > NULL && links.Keys == owner.Keys
    && (forall p :: p in links ==> p < top && links[p].block in blocks)
    && forall b :: b in blocks ==> b < top
  }

  lemma AddedIs(bs: seq<Ptr>, b: Ptr, front: bool)
    ensures WithAdded(bs, b, front) == if front then [b] + bs else bs + [b]
  {
  }

  /** Every cell is still there, on the same chain and with the same block. */
  ghost predicate CellsKept(links: Links, owner: Owners, links': Links, owner': Owners) {
    && (forall p :: p in links ==> p in links' && links'[p].block == links[p].block)
    && (forall p :: p in owner ==> p in owner' && owner'[p] == owner[p])
  }

  class ChainMemory {
    var links: Links
    var blocks: Blocks
    var ends: Ends
    var top: Ptr
    ghost var spine: Spines   // the cells of each chain, in order
    ghost var chains: Spines  // the blocks of each chain, in order
    ghost var owner: Owners   // the chain of each cell

    ghost predicate Valid()
      reads this
    {
      ChainsOk(links, ends, spine, chains) && OwnersOk(spine, owner) && CellsOk(links, blocks, owner, top)
    }

    constructor ()
      ensures Valid() && links == map[] && blocks == map[] && chains == map[AllChain := [], VarChain := []]
    {
      links, blocks, top, owner := map[], map[], 1, map[];
      ends := map[AllChain := ChainEnds(NULL, NULL), VarChain := ChainEnds(NULL, NULL)];
      spine := map[AllChain := [], VarChain := []];
      chains := map[AllChain := [], VarChain := []];
    }

    /** Allocate a clause. */
    method NewBlock(block: CodeBlock) returns (b: Ptr)
      requires Valid()
      modifies this`blocks, this`top
      ensures Valid() && b !in old(blocks) && b != NULL && b == old(top) && top == b + 1 && blocks == old(blocks)[b := block]
    {
      hide ChainsOk, OwnersOk;
      b := top;
      blocks := blocks[b := block];
      top := top + 1;
    }

    /** setDelete */
    method SetDelete(b: Ptr, ts: nat)
      requires Valid() && b in blocks
      modifies this`blocks
      ensures Valid() && blocks == old(blocks)[b := old(blocks)[b].(deleted := ts)]
    {
      hide ChainsOk, OwnersOk;
      blocks := blocks[b := blocks[b].(deleted := ts)];
    }

    /** new ChainEnds, for a hash table entry. */
    method NewChain(c: ChainRef)
      requires Valid() && c !in chains
      modifies this`ends, this`spine, this`chains
      ensures Valid() && chains == old(chains)[c := []] && spine == old(spine)[c := []]
    {
      assert c !in ends by { hide ChainOk; }
      hide ChainsOk, OwnersOk, CellsOk;
      NewEmptyChain(links, ends, spine, chains, owner, c);
      ends := ends[c := ChainEnds(NULL, NULL)];
      spine := spine[c := []];
      chains := chains[c := []];
    }

    method AddToChainStart(c: ChainRef, block: Ptr)
      requires Valid() && c in ends && block in blocks
      modifies this`links, this`ends, this`top, this`spine, this`chains, this`owner
      ensures Valid() && c in old(chains) && chains == old(chains)[c := [block] + old(chains)[c]]
      ensures c in old(spine) && spine == old(spine)[c := [old(top)] + old(spine)[c]]
      ensures CellsKept(old(links), old(owner), links, owner)
    {
      hide ChainsOk, OwnersOk, CellsOk;
      AddStart(links, blocks, ends, spine, chains, owner, top, c, block);
      var newlink := top;
      links := links[newlink := LinkedClause(block, ends[c].first)];
      top := top + 1;
      ends := ends[c := ChainEnds(newlink, if ends[c].last == NULL then newlink else ends[c].last)];
      spine := spine[c := [newlink] + spine[c]];
      chains := chains[c := [block] + chains[c]];
      owner := owner[newlink := c];
    }

    method AddToChainEnd(c: ChainRef, block: Ptr)
      requires Valid() && c in ends && block in blocks
      modifies this`links, this`ends, this`top, this`spine, this`chains, this`owner
      ensures Valid() && c in old(chains) && chains == old(chains)[c := old(chains)[c] + [block]]
      ensures c in old(spine) && spine == old(spine)[c := old(spine)[c] + [old(top)]]
      ensures CellsKept(old(links), old(owner), links, owner)
    {
      hide ChainsOk, OwnersOk, CellsOk;
      AddEnd(links, blocks, ends, spine, chains, owner, top, c, block);
      var newlink := top;
      links := links[newlink := LinkedClause(block, NULL)];
      top := top + 1;
      if ends[c].last == NULL {
        ends := ends[c := ChainEnds(newlink, newlink)];
      } else {
        var last := ends[c].last;
        links := links[last := LinkedClause(links[last].block, newlink)];
        ends := ends[c := ChainEnds(ends[c].first, newlink)];
      }
      spine := spine[c := spine[c] + [newlink]];
      chains := chains[c := chains[c] + [block]];
      owner := owner[newlink := c];
    }

    method AddToChain(c: ChainRef, block: Ptr, front: bool)
      requires Valid() && c in chains && block in blocks
      modifies this`links, this`ends, this`top, this`spine, this`chains, this`owner
      ensures forall d :: d in old(spine) && d != c ==> d in spine && spine[d] == old(spine)[d]
      ensures Valid() && c in old(chains) && chains == old(chains)[c := WithAdded(old(chains)[c], block, front)]
      ensures CellsKept(old(links), old(owner), links, owner)
    {
      hide ChainsOk, OwnersOk, CellsOk, CellsKept, ChainOk, WithAdded;
      ChainAt(links, ends, spine, chains, c);
      AddedIs(chains[c], block, front);
      if front {
        AddToChainStart(c, block);
      } else {
        AddToChainEnd(c, block);
      }
    }

    /** nextAlive: the first cell from p on with a clause alive at time ts. */
    method NextAlive(p: Ptr, ts: nat, ghost c: ChainRef, ghost i: nat) returns (q: Ptr, ghost j: nat)
      requires Valid() && c in spine && c in chains && i <= |spine[c]| && p == At(spine[c], i)
      ensures i <= j <= |spine[c]| == |chains[c]| && q == At(spine[c], j) && j == FirstAlive(blocks, chains[c], i, ts)
      ensures q == At(spine[c], FirstAlive(blocks, chains[c], i, ts))
      ensures q != NULL <==> j < |spine[c]|
      ensures q != NULL ==> q in links && links[q].block == chains[c][j] && q in owner && owner[q] == c
    {
      hide ChainsOk, OwnersOk, CellsOk, FirstAlive;
      q, j := p, i;
      CellAt(links, blocks, ends, spine, chains, owner, top, c, j, ts);
      while q != NULL && !IsAlive(q, ts)
        invariant i <= j <= |spine[c]| && q == At(spine[c], j)
        invariant CellLooked(links, blocks, spine[c], chains[c], owner, c, j, ts)
        invariant FirstAlive(blocks, chains[c], i, ts) == FirstAlive(blocks, chains[c], j, ts)
        decreases |spine[c]| - j
      {
        q, j := links[q].next, j + 1;
        CellAt(links, blocks, ends, spine, chains, owner, top, c, j, ts);
      }
    }

    /** What there is at cell i of the chain c. */
    lemma LookAt(c: ChainRef, i: nat)
      requires Valid() && c in spine && i <= |spine[c]|
      ensures c in chains && |spine[c]| == |chains[c]|
      ensures i == |spine[c]| ==> At(spine[c], i) == NULL
      ensures i < |spine[c]| ==>
                var p := At(spine[c], i);
                && p == spine[c][i] != NULL && p in links && links[p].block == chains[c][i] && links[p].next == At(spine[c], i + 1)
                && chains[c][i] in blocks && p in owner && owner[p] == c
    {
      hide ChainsOk, OwnersOk, CellsOk, FirstAlive;
      ChainAt(links, ends, spine, chains, c);
      CellAt(links, blocks, ends, spine, chains, owner, top, c, i, 0);
    }

    /** The place of a cell on its chain. */
    lemma CellIndex(p: Ptr) returns (i: nat)
      requires Valid() && p in owner
      ensures owner[p] in spine && owner[p] in chains && i < |spine[owner[p]]| == |chains[owner[p]]| && spine[owner[p]][i] == p
      ensures p in links && links[p].block == chains[owner[p]][i] && links[p].block in blocks
    {
      hide ChainsOk, CellsOk;
      assert p in spine[owner[p]];
      i :| 0 <= i < |spine[owner[p]]| && spine[owner[p]][i] == p;
      LookAt(owner[p], i);
    }

    lemma FirstIs(c: ChainRef)
      requires Valid() && c in chains
      ensures c in ends && c in spine && ends[c].first == At(spine[c], 0) && (ends[c].first == NULL <==> chains[c] == [])
    {
      ChainAt(links, ends, spine, chains, c);
      LookAt(c, 0);
      hide ChainsOk, OwnersOk, CellsOk, Linked;
      FirstCell(ends[c], spine[c]);
    }

    /** isAlive: the clause of the cell p is alive at time ts. */
    predicate IsAlive(p: Ptr, ts: nat)
      reads this`links, this`blocks
      requires p in links && links[p].block in blocks
    {
      blocks[links[p].block].IsAlive(ts)
    }

    /** nextNextAlive */
    method NextNextAlive(p: Ptr, ts: nat, ghost c: ChainRef, ghost i: nat) returns (q: Ptr, ghost j: nat)
      requires Valid() && c in spine && c in chains && i < |spine[c]| && p == spine[c][i]
      ensures i + 1 <= j <= |spine[c]| == |chains[c]| && q == At(spine[c], j) && j == FirstAlive(blocks, chains[c], i + 1, ts)
      ensures q == At(spine[c], FirstAlive(blocks, chains[c], i + 1, ts))
      ensures q != NULL <==> j < |spine[c]|
      ensures q != NULL ==> q in links && links[q].block == chains[c][j] && q in owner && owner[q] == c
    {
      hide ChainsOk, OwnersOk, CellsOk, FirstAlive;
      CellAt(links, blocks, ends, spine, chains, owner, top, c, i, ts);
      q, j := NextAlive(links[p].next, ts, c, i + 1);
    }

    /** gcChain: the cells of retracted clauses leave chain c, and so do their blocks when
        deleteBlock, which is right only when no other chain has them. */
    method GcChain(c: ChainRef, time: nat, deleteBlock: bool)
      requires Valid() && c in chains
      requires deleteBlock ==> Distinct(chains[c])
      requires deleteBlock ==> forall d, b :: d in chains && d != c && b in chains[d] ==> b !in Retracted(blocks, time)
      modifies this`links, this`blocks, this`ends, this`spine, this`chains, this`owner
      ensures Valid() && c in old(chains)
      ensures chains == old(chains)[c := Without(old(chains)[c], Retracted(old(blocks), time))]
      ensures blocks == if deleteBlock then Kept(old(blocks), old(chains)[c], time) else old(blocks)
    {
      hide ChainsOk, OwnersOk, CellsOk, Linked, GcStart, Without, Gone, EndsOk, Kept, DeadCells;
      ghost var dead := Retracted(blocks, time);
      GcPrepare(links, blocks, ends, spine, chains, owner, top, c, time, deleteBlock);
      ghost var cells, links0, blocks0, ends0 := DeadCells(links, spine[c], dead), links, blocks, ends;
      SweepChain(c, time, deleteBlock, cells);
      GcDone(links0, blocks0, ends0, spine, chains, owner, top, c, time, deleteBlock, links, blocks, ends, cells);
      spine := spine[c := Without(spine[c], cells)];
      chains := chains[c := Without(chains[c], dead)];
      owner := owner - cells;
    }

    /** The loops of gcChain; cells are the cells of retracted clauses. */
    method SweepChain(c: ChainRef, time: nat, deleteBlock: bool, ghost cells: set<Ptr>)
      requires c in ends && c in spine && EndsOk(ends[c], spine[c])
      requires GcStart(links, blocks, spine[c], cells, time, deleteBlock)
      modifies this`links, this`blocks, this`ends
      ensures forall p :: p in links <==> p in old(links) && !(p in spine[c] && p in cells)
      ensures forall p :: p in links && p !in spine[c] ==> p in old(links) && links[p] == old(links)[p]
      ensures forall p :: p in links && p in spine[c] ==> p in old(links) && links[p].block == old(links)[p].block
      ensures Linked(links, Without(spine[c], cells))
      ensures blocks == if deleteBlock then old(blocks) - Gone(old(links), spine[c], cells) else old(blocks)
      ensures ends.Keys == old(ends).Keys && EndsOk(ends[c], Without(spine[c], cells))
      ensures forall d :: d in ends && d != c ==> ends[d] == old(ends)[d]
    {
      hide Linked, GcStart, GcAt, Without, Gone, EndsOk;
      FirstCell(ends[c], spine[c]);
      ghost var links0, blocks0, ps := links, blocks, spine[c];
      var start := ends[c].first;
      ghost var i, tail, kept: seq<Ptr> := 0, start, [];
      AtBegin(links0, blocks0, ps, cells, time, tail, deleteBlock);
      AtReady(links0, blocks0, links, blocks, ps, i, kept, cells, tail, time, deleteBlock);
      while start != NULL && ToDelete(start, time)
        invariant ends == old(ends)
        invariant start == At(ps, i) && i <= |ps| && Ready(links, blocks, ps, i, cells, time)
        invariant GcAt(links0, blocks0, links, blocks, ps, i, kept, cells, tail, time, deleteBlock)
        decreases |ps| - i
      {
        AtDrop(links0, blocks0, links, blocks, ps, i, kept, cells, tail, time, deleteBlock);
        if deleteBlock {
          blocks := blocks - {links[start].block};
        }
        var tmp := links[start].next;
        links := links - {start};
        start, i := tmp, i + 1;
        AtReady(links0, blocks0, links, blocks, ps, i, kept, cells, tail, time, deleteBlock);
      }
      if start == NULL {
        AtEnd(links0, blocks0, links, blocks, ps, kept, cells, tail, time, deleteBlock);
        ends := ends[c := ChainEnds(NULL, NULL)];
        EndsEmpty();
        return;
      }
      AtRetarget(links0, blocks0, links, blocks, ps, i, cells, tail, start, time, deleteBlock);
      var follower;
      follower, kept := SweepRest(start, time, deleteBlock, cells, links0, blocks0, ps, i);
      ends := ends[c := ChainEnds(start, follower)];
      AtEnd(links0, blocks0, links, blocks, ps, kept, cells, NULL, time, deleteBlock);
      EndsFull(kept);
    }

    /** The second loop of gcChain: from the first cell to keep on, unlink and delete the others. */
    method SweepRest(start: Ptr, time: nat, deleteBlock: bool, ghost cells: set<Ptr>, ghost links0: Links,
                     ghost blocks0: Blocks, ghost ps: seq<Ptr>, ghost i0: nat)
      returns (follower: Ptr, ghost kept: seq<Ptr>)
      requires start != NULL && i0 < |ps| && start == ps[i0] && start !in cells
      requires GcAt(links0, blocks0, links, blocks, ps, i0, [], cells, start, time, deleteBlock)
      modifies this`links, this`blocks
      ensures kept != [] && kept[0] == start && follower == kept[|kept| - 1]
      ensures GcAt(links0, blocks0, links, blocks, ps, |ps|, kept, cells, NULL, time, deleteBlock)
    {
      hide GcAt;
      var step := start;
      follower, kept := start, [];
      ghost var i := i0;
      AtReady(links0, blocks0, links, blocks, ps, i, kept, cells, step, time, deleteBlock);
      while step != NULL
        invariant i <= |ps| && step == At(ps, i) && Ready(links, blocks, ps, i, cells, time)
        invariant step != NULL ==> step !in cells
        invariant GcAt(links0, blocks0, links, blocks, ps, i, kept, cells, step, time, deleteBlock)
        invariant if kept == [] then step == start else kept[0] == start && follower == kept[|kept| - 1]
        decreases |ps| - i
      {
        AtKeep(links0, blocks0, links, blocks, ps, i, kept, cells, time, deleteBlock);
        follower, kept := step, kept + [step];
        step, i := links[step].next, i + 1;
        ghost var tail := step;
        AtReady(links0, blocks0, links, blocks, ps, i, kept, cells, tail, time, deleteBlock);
        while step != NULL && ToDelete(step, time)
          invariant i <= |ps| && step == At(ps, i) && Ready(links, blocks, ps, i, cells, time)
          invariant GcAt(links0, blocks0, links, blocks, ps, i, kept, cells, tail, time, deleteBlock)
          decreases |ps| - i
        {
          AtDrop(links0, blocks0, links, blocks, ps, i, kept, cells, tail, time, deleteBlock);
          if deleteBlock {
            blocks := blocks - {links[step].block};
          }
          var tmp := links[step].next;
          links := links - {step};
          step, i := tmp, i + 1;
          AtReady(links0, blocks0, links, blocks, ps, i, kept, cells, tail, time, deleteBlock);
        }
        AtSetNext(links0, blocks0, links, blocks, ps, i, kept, cells, tail, time, deleteBlock);
        links := links[follower := LinkedClause(links[follower].block, step)];
        AtReady(links0, blocks0, links, blocks, ps, i, kept, cells, step, time, deleteBlock);
      }
    }

    /** toDelete: the clause of the cell p is retracted at the given time. */
    predicate ToDelete(p: Ptr, time: nat)
      reads this`links, this`blocks
      requires p in links && links[p].block in blocks
    {
      blocks[links[p].block].ToDelete(time)
    }
  }

  lemma AtReady(links0: Links, blocks0: Blocks, links: Links, blocks: Blocks, ps: seq<Ptr>, i: nat,
                kept: seq<Ptr>, cells: set<Ptr>, tail: Ptr, time: nat, deleteBlock: bool)
    requires GcAt(links0, blocks0, links, blocks, ps, i, kept, cells, tail, time, deleteBlock)
    ensures i <= |ps| && Ready(links, blocks, ps, i, cells, time)
  {
  }

  /** While nothing is kept nothing points to tail. */
  lemma AtRetarget(links0: Links, blocks0: Blocks, links: Links, blocks: Blocks, ps: seq<Ptr>, i: nat,
                   cells: set<Ptr>, tail: Ptr, tail': Ptr, time: nat, deleteBlock: bool)
    requires GcAt(links0, blocks0, links, blocks, ps, i, [], cells, tail, time, deleteBlock)
    ensures GcAt(links0, blocks0, links, blocks, ps, i, [], cells, tail', time, deleteBlock)
  {
  }

  lemma EndsEmpty()
    ensures EndsOk(ChainEnds(NULL, NULL), [])
  {
  }

  lemma EndsFull(ps: seq<Ptr>)
    requires ps != []
    ensures EndsOk(ChainEnds(ps[0], ps[|ps| - 1]), ps)
  {
  }


  /** What there is at cell i of the chain c. */
  ghost predicate CellLooked(links: Links, blocks: Blocks, ps: seq<Ptr>, bs: seq<Ptr>, owner: Owners, c: ChainRef, i: nat, ts: nat) {
    && |ps| == |bs|
    && (i >= |ps| ==> At(ps, i) == NULL && FirstAlive(blocks, bs, i, ts) == i)
    && (i < |ps| ==>
          && ps[i] != NULL && ps[i] in links && links[ps[i]].block == bs[i] && bs[i] in blocks && ps[i] in owner && owner[ps[i]] == c
          && links[ps[i]].next == At(ps, i + 1)
          && FirstAlive(blocks, bs, i, ts) == if blocks[bs[i]].IsAlive(ts) then i else FirstAlive(blocks, bs, i + 1, ts))
  }

  lemma CellAt(links: Links, blocks: Blocks, ends: Ends, spine: Spines, chains: Spines, owner: Owners, top: Ptr,
               c: ChainRef, i: nat, ts: nat)
    requires ChainsOk(links, ends, spine, chains) && OwnersOk(spine, owner) && CellsOk(links, blocks, owner, top)
    requires c in spine && c in chains && i <= |spine[c]|
    ensures CellLooked(links, blocks, spine[c], chains[c], owner, c, i, ts)
  {
    hide FirstAlive, ChainsOk, OwnersOk, CellsOk, Linked;
    ChainAt(links, ends, spine, chains, c);
    AliveNext(blocks, chains[c], i, ts);
    if i < |spine[c]| { CellOnChain(links, blocks, ends[c], spine, chains[c], owner, top, c, i); }
  }

  lemma AliveNext(blocks: Blocks, bs: seq<Ptr>, i: nat, ts: nat)
    ensures FirstAlive(blocks, bs, i, ts) ==
            if i < |bs| && !(bs[i] in blocks && blocks[bs[i]].IsAlive(ts)) then FirstAlive(blocks, bs, i + 1, ts) else i
  {
  }

  lemma CellOnChain(links: Links, blocks: Blocks, e: ChainEnds, spine: Spines, bs: seq<Ptr>, owner: Owners, top: Ptr,
                    c: ChainRef, i: nat)
    requires c in spine && ChainOk(links, e, spine[c], bs) && OwnersOk(spine, owner) && CellsOk(links, blocks, owner, top)
    requires i < |spine[c]|
    ensures var p := spine[c][i];
            && i < |bs| && p != NULL && p in links && links[p].block == bs[i] && bs[i] in blocks
            && p in owner && owner[p] == c && links[p].next == At(spine[c], i + 1)
  {
    assert spine[c][i] in spine[c];
  }

  lemma FirstCell(e: ChainEnds, ps: seq<Ptr>)
    requires EndsOk(e, ps)
    ensures e.first == At(ps, 0)
  {
  }

  // ------------------------------------------------------------------
  // One chain changes
  // ------------------------------------------------------------------

  lemma ChainAt(links: Links, ends: Ends, spine: Spines, chains: Spines, c: ChainRef)
    requires ChainsOk(links, ends, spine, chains) && (c in ends || c in spine || c in chains)
    ensures c in ends && c in spine && c in chains && ChainOk(links, ends[c], spine[c], chains[c])
  {
  }

  ghost predicate Elsewhere(links: Links, links': Links, owner: Owners, c: ChainRef) {
    forall p :: p in owner && owner[p] != c && p in links ==> p in links' && links'[p] == links[p]
  }

  /** The cells of chain d, all elsewhere, are as they were. */
  lemma ChainKept(links: Links, links': Links, e: ChainEnds, ps: seq<Ptr>, bs: seq<Ptr>)
    requires ChainOk(links, e, ps, bs)
    requires forall p :: p in ps && p in links ==> p in links' && links'[p] == links[p]
    ensures ChainOk(links', e, ps, bs)
  {
    assert forall i :: 0 <= i < |ps| ==> ps[i] in ps;
  }

  lemma ChainReplaced(links: Links, ends: Ends, spine: Spines, chains: Spines, owner: Owners, c: ChainRef,
                      links': Links, e: ChainEnds, ps: seq<Ptr>, bs: seq<Ptr>)
    requires ChainsOk(links, ends, spine, chains) && OwnersOk(spine, owner)
    requires Elsewhere(links, links', owner, c) && ChainOk(links', e, ps, bs)
    ensures ChainsOk(links', ends[c := e], spine[c := ps], chains[c := bs])
  {
    hide ChainOk;
    forall d | d in spine && d != c ensures ChainOk(links', ends[d], spine[d], chains[d]) {
      ChainKept(links, links', ends[d], spine[d], chains[d]);
    }
  }

  lemma NewEmptyChain(links: Links, ends: Ends, spine: Spines, chains: Spines, owner: Owners, c: ChainRef)
    requires ChainsOk(links, ends, spine, chains) && OwnersOk(spine, owner) && c !in ends
    ensures ChainsOk(links, ends[c := ChainEnds(NULL, NULL)], spine[c := []], chains[c := []])
    ensures OwnersOk(spine[c := []], owner)
  {
    assert ChainOk(links, ChainEnds(NULL, NULL), [], []);
    hide ChainOk, OwnersOk;
    StartElsewhereNot(links, owner, c);
    ChainReplaced(links, ends, spine, chains, owner, c, links, ChainEnds(NULL, NULL), [], []);
    OwnersNew(spine, owner, c);
  }

  lemma StartElsewhereNot(links: Links, owner: Owners, c: ChainRef)
    ensures Elsewhere(links, links, owner, c)
  {
  }

  lemma OwnersNew(spine: Spines, owner: Owners, c: ChainRef)
    requires OwnersOk(spine, owner) && c !in spine
    ensures OwnersOk(spine[c := []], owner)
  {
  }

  lemma OwnersAdd(spine: Spines, owner: Owners, c: ChainRef, p: Ptr, ps: seq<Ptr>)
    requires OwnersOk(spine, owner) && c in spine && p !in owner
    requires forall q :: q in ps <==> q == p || q in spine[c]
    ensures OwnersOk(spine[c := ps], owner[p := c])
  {
  }

  lemma LinkedStart(links: Links, e: ChainEnds, ps: seq<Ptr>, bs: seq<Ptr>, p: Ptr, block: Ptr)
    requires ChainOk(links, e, ps, bs) && p != NULL && p !in ps
    ensures ChainOk(links[p := LinkedClause(block, e.first)],
                    ChainEnds(p, if e.last == NULL then p else e.last), [p] + ps, [block] + bs)
  {
    HoldsPrepend(links, ps, bs, p, LinkedClause(block, e.first));
    LinkedPrepend(links, ps, p, LinkedClause(block, At(ps, 0)));
    if ps != [] { LastNotNull(links, ps); }
    hide Linked, Holds;
    assert ps != [] ==> ([p] + ps)[|ps|] == ps[|ps| - 1];
  }

  lemma LastNotNull(links: Links, ps: seq<Ptr>)
    requires Linked(links, ps) && ps != []
    ensures ps[|ps| - 1] != NULL && ps[|ps| - 1] in links && ps[|ps| - 1] in ps
  {
  }

  lemma LinkedPrepend(links: Links, ps: seq<Ptr>, p: Ptr, l: LinkedClause)
    requires Linked(links, ps) && p != NULL && p !in ps && l.next == At(ps, 0)
    ensures Linked(links[p := l], [p] + ps)
  {
    var qs := [p] + ps;
    forall i | 0 <= i < |qs| ensures qs[i] != NULL && qs[i] in links[p := l] && links[p := l][qs[i]].next == NextOf(qs, i) {
      if i > 0 {
        assert qs[i] == ps[i - 1] && NextOf(qs, i) == NextOf(ps, i - 1);
      }
    }
  }

  lemma HoldsPrepend(links: Links, ps: seq<Ptr>, bs: seq<Ptr>, p: Ptr, l: LinkedClause)
    requires Holds(links, ps, bs) && p !in ps
    ensures Holds(links[p := l], [p] + ps, [l.block] + bs)
  {
  }

  lemma HoldsAppend(links: Links, ps: seq<Ptr>, bs: seq<Ptr>, p: Ptr, l: LinkedClause)
    requires Holds(links, ps, bs) && p !in ps
    ensures Holds(links[p := l], ps + [p], bs + [l.block])
  {
  }

  lemma HoldsRelink(links: Links, ps: seq<Ptr>, bs: seq<Ptr>, p: Ptr, next: Ptr)
    requires Holds(links, ps, bs) && p in links
    ensures Holds(links[p := LinkedClause(links[p].block, next)], ps, bs)
  {
  }

  lemma LinkedAppend(links: Links, ps: seq<Ptr>, p: Ptr, block: Ptr)
    requires Linked(links, ps) && p != NULL && p !in ps && ps != []
    ensures var last := ps[|ps| - 1];
            && last in links
            && Linked(links[p := LinkedClause(block, NULL)][last := LinkedClause(links[last].block, p)], ps + [p])
  {
    var qs, last := ps + [p], ps[|ps| - 1];
    var links' := links[p := LinkedClause(block, NULL)][last := LinkedClause(links[last].block, p)];
    forall i | 0 <= i < |qs| ensures qs[i] != NULL && qs[i] in links' && links'[qs[i]].next == NextOf(qs, i) {
      if i < |ps| - 1 { assert qs[i] == ps[i] != last && NextOf(ps, i) == ps[i + 1]; }
    }
  }

  lemma LinkedEnd(links: Links, e: ChainEnds, ps: seq<Ptr>, bs: seq<Ptr>, p: Ptr, block: Ptr)
    requires ChainOk(links, e, ps, bs) && p != NULL && p !in ps
    ensures e.last == NULL ==>
              ChainOk(links[p := LinkedClause(block, NULL)], ChainEnds(p, p), ps + [p], bs + [block])
    ensures e.last != NULL ==>
              && e.last in links && e.last in ps && e.last != p
              && ChainOk(links[p := LinkedClause(block, NULL)][e.last := LinkedClause(links[e.last].block, p)],
                         ChainEnds(e.first, p), ps + [p], bs + [block])
  {
    if ps == [] {
    } else {
      LastNotNull(links, ps);
      HoldsAppend(links, ps, bs, p, LinkedClause(block, NULL));
      LinkedAppend(links, ps, p, block);
      hide Linked, Holds;
      HoldsRelink(links[p := LinkedClause(block, NULL)], ps + [p], bs + [block], e.last, p);
    }
  }

  lemma FreshCell(links: Links, blocks: Blocks, spine: Spines, owner: Owners, top: Ptr, c: ChainRef)
    requires OwnersOk(spine, owner) && CellsOk(links, blocks, owner, top) && c in spine
    ensures top != NULL && top !in owner && top !in spine[c] && top !in links
  {
  }

  lemma CellsAdd(links: Links, blocks: Blocks, owner: Owners, top: Ptr, c: ChainRef, l: LinkedClause)
    requires CellsOk(links, blocks, owner, top) && l.block in blocks
    ensures CellsOk(links[top := l], blocks, owner[top := c], top + 1)
  {
  }

  lemma CellsRelink(links: Links, blocks: Blocks, owner: Owners, top: Ptr, p: Ptr, next: Ptr)
    requires CellsOk(links, blocks, owner, top) && p in links
    ensures CellsOk(links[p := LinkedClause(links[p].block, next)], blocks, owner, top)
  {
  }

  lemma AddStart(links: Links, blocks: Blocks, ends: Ends, spine: Spines, chains: Spines, owner: Owners, top: Ptr,
                 c: ChainRef, block: Ptr)
    requires ChainsOk(links, ends, spine, chains) && OwnersOk(spine, owner) && CellsOk(links, blocks, owner, top)
    requires c in ends && block in blocks
    ensures c in spine && c in chains && top !in links && top !in owner
    ensures var e := ChainEnds(top, if ends[c].last == NULL then top else ends[c].last);
            ChainsOk(links[top := LinkedClause(block, ends[c].first)], ends[c := e], spine[c := [top] + spine[c]],
                     chains[c := [block] + chains[c]])
    ensures OwnersOk(spine[c := [top] + spine[c]], owner[top := c])
    ensures CellsOk(links[top := LinkedClause(block, ends[c].first)], blocks, owner[top := c], top + 1)
  {
    hide *;
    ChainAt(links, ends, spine, chains, c);
    FreshCell(links, blocks, spine, owner, top, c);
    LinkedStart(links, ends[c], spine[c], chains[c], top, block);
    StartElsewhere(links, owner, c, top, LinkedClause(block, ends[c].first));
    ChainReplaced(links, ends, spine, chains, owner, c, links[top := LinkedClause(block, ends[c].first)],
                  ChainEnds(top, if ends[c].last == NULL then top else ends[c].last), [top] + spine[c], [block] + chains[c]);
    OwnersAdd(spine, owner, c, top, [top] + spine[c]);
    CellsAdd(links, blocks, owner, top, c, LinkedClause(block, ends[c].first));
  }

  lemma StartElsewhere(links: Links, owner: Owners, c: ChainRef, p: Ptr, l: LinkedClause)
    requires p !in owner
    ensures Elsewhere(links, links[p := l], owner, c)
  {
  }

  lemma AddEnd(links: Links, blocks: Blocks, ends: Ends, spine: Spines, chains: Spines, owner: Owners, top: Ptr,
               c: ChainRef, block: Ptr)
    requires ChainsOk(links, ends, spine, chains) && OwnersOk(spine, owner) && CellsOk(links, blocks, owner, top)
    requires c in ends && block in blocks
    ensures c in spine && c in chains && OwnersOk(spine[c := spine[c] + [top]], owner[top := c])
    ensures top !in links && top !in owner
    ensures EndAdded(links, blocks, ends, spine[c := spine[c] + [top]], chains[c := chains[c] + [block]],
                     owner[top := c], top, c, block)
  {
    hide ChainsOk, OwnersOk, CellsOk, ChainOk, Elsewhere;
    ChainAt(links, ends, spine, chains, c);
    FreshCell(links, blocks, spine, owner, top, c);
    var ps, bs, last, links1 := spine[c] + [top], chains[c] + [block], ends[c].last, links[top := LinkedClause(block, NULL)];
    LinkedEnd(links, ends[c], spine[c], chains[c], top, block);
    OwnersAdd(spine, owner, c, top, ps);
    CellsAdd(links, blocks, owner, top, c, LinkedClause(block, NULL));
    StartElsewhere(links, owner, c, top, LinkedClause(block, NULL));
    if last == NULL {
      ChainReplaced(links, ends, spine, chains, owner, c, links1, ChainEnds(top, top), ps, bs);
    } else {
      EndElsewhere(links, links1, spine, owner, c, last, LinkedClause(links[last].block, top));
      CellsRelink(links1, blocks, owner[top := c], top + 1, last, top);
      ChainReplaced(links, ends, spine, chains, owner, c, links1[last := LinkedClause(links[last].block, top)],
                    ChainEnds(ends[c].first, top), ps, bs);
    }
  }

  /** What addToChainEnd makes of the memory is in order. */
  ghost predicate EndAdded(links: Links, blocks: Blocks, ends: Ends, spine: Spines, chains: Spines, owner: Owners,
                           top: Ptr, c: ChainRef, block: Ptr)
  {
    && c in ends
    && var last, links1 := ends[c].last, links[top := LinkedClause(block, NULL)];
    && (last != NULL ==> last in links && last != top)
    && var links' := if last == NULL then links1 else links1[last := LinkedClause(links[last].block, top)];
    && var ends' := if last == NULL then ends[c := ChainEnds(top, top)] else ends[c := ChainEnds(ends[c].first, top)];
    && ChainsOk(links', ends', spine, chains)
    && CellsOk(links', blocks, owner, top + 1)
  }

  lemma EndElsewhere(links: Links, links1: Links, spine: Spines, owner: Owners, c: ChainRef, p: Ptr, l: LinkedClause)
    requires Elsewhere(links, links1, owner, c) && OwnersOk(spine, owner) && c in spine && p in spine[c]
    ensures Elsewhere(links, links1[p := l], owner, c)
  {
  }

  // ------------------------------------------------------------------
  // Garbage collecting a chain
  // ------------------------------------------------------------------

  lemma GcPrepare(links: Links, blocks: Blocks, ends: Ends, spine: Spines, chains: Spines, owner: Owners, top: Ptr,
                  c: ChainRef, time: nat, deleteBlock: bool)
    requires ChainsOk(links, ends, spine, chains) && OwnersOk(spine, owner) && CellsOk(links, blocks, owner, top)
    requires c in chains && (deleteBlock ==> Distinct(chains[c]))
    ensures c in spine && c in ends && EndsOk(ends[c], spine[c])
    ensures forall p :: p in spine[c] ==> p in links
    ensures GcStart(links, blocks, spine[c], DeadCells(links, spine[c], Retracted(blocks, time)), time, deleteBlock)
  {
    ChainAt(links, ends, spine, chains, c);
    hide ChainsOk;
    var ps, bs := spine[c], chains[c];
    if deleteBlock { OneCellPerBlock(links, ps, bs); }
  }

  lemma OneCellPerBlock(links: Links, ps: seq<Ptr>, bs: seq<Ptr>)
    requires Holds(links, ps, bs) && Distinct(bs)
    ensures forall p, q :: p in ps && q in ps && p in links && q in links && links[p].block == links[q].block ==> p == q
  {
  }

  /** What the loops of gcChain leave. */
  ghost predicate Swept(links0: Links, blocks0: Blocks, ends0: Ends, links: Links, blocks: Blocks, ends: Ends,
                        c: ChainRef, ps: seq<Ptr>, cells: set<Ptr>, deleteBlock: bool)
  {
    && (forall p :: p in links <==> p in links0 && !(p in ps && p in cells))
    && (forall p :: p in links && p !in ps ==> p in links0 && links[p] == links0[p])
    && (forall p :: p in links && p in ps ==> p in links0 && links[p].block == links0[p].block)
    && Linked(links, Without(ps, cells))
    && (forall p :: p in ps ==> p in links0)
    && blocks == (if deleteBlock then blocks0 - Gone(links0, ps, cells) else blocks0)
    && c in ends && ends.Keys == ends0.Keys && EndsOk(ends[c], Without(ps, cells))
    && (forall d :: d in ends && d != c ==> ends[d] == ends0[d])
  }

  lemma {:induction false} SurvivorsHold(links: Links, links': Links, ps: seq<Ptr>, bs: seq<Ptr>, dead: set<Ptr>, cells: set<Ptr>)
    requires Holds(links, ps, bs) && Survive(links, links', ps, dead, cells)
    ensures Holds(links', Without(ps, cells), Without(bs, dead))
  {
    if ps != [] {
      var n := |ps| - 1;
      assert ps[n] in ps && forall q :: q in ps[..n] ==> q in ps;
      SurvivorsHold(links, links', ps[..n], bs[..n], dead, cells);
    }
  }

  lemma SweptSurvive(links0: Links, links: Links, ps: seq<Ptr>, dead: set<Ptr>, cells: set<Ptr>)
    requires forall p :: p in links <==> p in links0 && !(p in ps && p in cells)
    requires forall p :: p in links && p in ps ==> p in links0 && links[p].block == links0[p].block
    requires forall p :: p in ps ==> p in links0
    requires cells == DeadCells(links0, ps, dead)
    ensures Survive(links0, links, ps, dead, cells)
  {
  }

  lemma SweptElsewhere(links0: Links, links: Links, spine: Spines, owner: Owners, c: ChainRef, cells: set<Ptr>)
    requires OwnersOk(spine, owner) && c in spine
    requires forall p :: p in links <==> p in links0 && !(p in spine[c] && p in cells)
    requires forall p :: p in links && p !in spine[c] ==> p in links0 && links[p] == links0[p]
    ensures Elsewhere(links0, links, owner, c)
  {
  }

  lemma OwnersSweep(spine: Spines, owner: Owners, c: ChainRef, cells: set<Ptr>)
    requires OwnersOk(spine, owner) && c in spine && forall p :: p in cells ==> p in spine[c]
    ensures OwnersOk(spine[c := Without(spine[c], cells)], owner - cells)
  {
    hide Without;
    WithoutMembers(spine[c], cells);
    var spine', owner' := spine[c := Without(spine[c], cells)], owner - cells;
    forall d, p | d in spine' ensures p in spine'[d] <==> p in owner' && owner'[p] == d {
      assert p in spine[d] <==> p in owner && owner[p] == d;
    }
  }

  lemma GoneIsDead(links0: Links, blocks0: Blocks, ps: seq<Ptr>, bs: seq<Ptr>, time: nat, cells: set<Ptr>)
    requires Holds(links0, ps, bs) && forall p :: p in ps ==> p in links0
    requires cells == DeadCells(links0, ps, Retracted(blocks0, time))
    ensures forall b :: b in Gone(links0, ps, cells) <==> b in bs && b in Retracted(blocks0, time)
  {
    forall b | b in bs && b in Retracted(blocks0, time) ensures b in Gone(links0, ps, cells) {
      var i :| 0 <= i < |bs| && bs[i] == b;
      assert ps[i] in ps && ps[i] in cells;
    }
  }

  lemma GoneIsKept(links0: Links, blocks0: Blocks, ps: seq<Ptr>, bs: seq<Ptr>, time: nat, cells: set<Ptr>)
    requires Holds(links0, ps, bs) && forall p :: p in ps ==> p in links0
    requires cells == DeadCells(links0, ps, Retracted(blocks0, time))
    ensures blocks0 - Gone(links0, ps, cells) == Kept(blocks0, bs, time)
  {
    GoneIsDead(links0, blocks0, ps, bs, time, cells);
  }

  /** The block of a cell on chain d is among the blocks of d. */
  lemma BlockOnChain(links: Links, ends: Ends, spine: Spines, chains: Spines, owner: Owners, p: Ptr)
    requires ChainsOk(links, ends, spine, chains) && OwnersOk(spine, owner) && p in owner
    ensures p in links && owner[p] in chains && links[p].block in chains[owner[p]]
  {
    var d := owner[p];
    assert ChainOk(links, ends[d], spine[d], chains[d]);
    var i :| 0 <= i < |spine[d]| && spine[d][i] == p;
    assert chains[d][i] == links[p].block;
  }

  lemma CellsSweep(links0: Links, blocks0: Blocks, owner: Owners, top: Ptr, links: Links, blocks: Blocks, cells: set<Ptr>)
    requires CellsOk(links0, blocks0, owner, top) && links.Keys == links0.Keys - cells
    requires forall p :: p in links ==> links[p].block == links0[p].block && links[p].block in blocks
    requires blocks.Keys <= blocks0.Keys
    ensures CellsOk(links, blocks, owner - cells, top)
  {
    assert (owner - cells).Keys == owner.Keys - cells;
  }

  lemma KeptBlock(links0: Links, blocks0: Blocks, ends0: Ends, spine: Spines, chains: Spines, owner: Owners,
                  c: ChainRef, time: nat, p: Ptr)
    requires ChainsOk(links0, ends0, spine, chains) && OwnersOk(spine, owner)
    requires c in spine && c in chains && p in owner
    requires forall d, b :: d in chains && d != c && b in chains[d] ==> b !in Retracted(blocks0, time)
    requires p in links0 && links0[p].block in blocks0 && !(p in spine[c] && links0[p].block in Retracted(blocks0, time))
    ensures links0[p].block in Kept(blocks0, chains[c], time)
  {
    hide ChainsOk;
    BlockOnChain(links0, ends0, spine, chains, owner, p);
    var b, d := links0[p].block, owner[p];
    assert d in chains && b in chains[d];
    if d == c { assert p in spine[c]; }
    assert b !in Retracted(blocks0, time);
  }

  lemma GcDone(links0: Links, blocks0: Blocks, ends0: Ends, spine: Spines, chains: Spines, owner: Owners, top: Ptr,
               c: ChainRef, time: nat, deleteBlock: bool, links: Links, blocks: Blocks, ends: Ends, cells: set<Ptr>)
    requires ChainsOk(links0, ends0, spine, chains) && OwnersOk(spine, owner) && CellsOk(links0, blocks0, owner, top)
    requires c in ends0 && c in spine && c in chains && forall p :: p in spine[c] ==> p in links0
    requires cells == DeadCells(links0, spine[c], Retracted(blocks0, time))
    requires Swept(links0, blocks0, ends0, links, blocks, ends, c, spine[c], cells, deleteBlock)
    requires deleteBlock ==> forall d, b :: d in chains && d != c && b in chains[d] ==> b !in Retracted(blocks0, time)
    ensures ChainsOk(links, ends, spine[c := Without(spine[c], cells)], chains[c := Without(chains[c], Retracted(blocks0, time))])
    ensures OwnersOk(spine[c := Without(spine[c], cells)], owner - cells)
    ensures CellsOk(links, blocks, owner - cells, top)
    ensures blocks == if deleteBlock then Kept(blocks0, chains[c], time) else blocks0
  {
    hide ChainsOk, OwnersOk, CellsOk, Linked, Holds, Without, Gone, EndsOk, Kept, Retracted, DeadCells, Survive, Elsewhere;
    ChainAt(links0, ends0, spine, chains, c);
    var ps, bs, dead := spine[c], chains[c], Retracted(blocks0, time);
    GoneIsKept(links0, blocks0, ps, bs, time, cells);
    SweptSurvive(links0, links, ps, dead, cells);
    SurvivorsHold(links0, links, ps, bs, dead, cells);
    SweptElsewhere(links0, links, spine, owner, c, cells);
    OwnersSweep(spine, owner, c, cells);
    ChainReplaced(links0, ends0, spine, chains, owner, c, links, ends[c], Without(ps, cells), Without(bs, dead));
    assert ends == ends0[c := ends[c]];
    GcCells(links0, blocks0, ends0, spine, chains, owner, top, c, time, deleteBlock, links, blocks, ends, cells);
  }

  lemma GcCells(links0: Links, blocks0: Blocks, ends0: Ends, spine: Spines, chains: Spines, owner: Owners, top: Ptr,
                c: ChainRef, time: nat, deleteBlock: bool, links: Links, blocks: Blocks, ends: Ends, cells: set<Ptr>)
    requires ChainsOk(links0, ends0, spine, chains) && OwnersOk(spine, owner) && CellsOk(links0, blocks0, owner, top)
    requires c in ends0 && c in spine && c in chains && forall p :: p in spine[c] ==> p in links0
    requires cells == DeadCells(links0, spine[c], Retracted(blocks0, time))
    requires Swept(links0, blocks0, ends0, links, blocks, ends, c, spine[c], cells, deleteBlock)
    requires blocks == if deleteBlock then Kept(blocks0, chains[c], time) else blocks0
    requires deleteBlock ==> forall d, b :: d in chains && d != c && b in chains[d] ==> b !in Retracted(blocks0, time)
    ensures CellsOk(links, blocks, owner - cells, top)
  {
    hide ChainsOk, OwnersOk, Linked, Holds, Without, Gone, EndsOk, Kept, Retracted, DeadCells;
    forall p | p in links ensures links[p].block == links0[p].block && links[p].block in blocks {
      if deleteBlock { KeptBlock(links0, blocks0, ends0, spine, chains, owner, c, time, p); }
    }
    KeptKeys(blocks0, chains[c], time);
    CellsSweep(links0, blocks0, owner, top, links, blocks, cells);
  }

  lemma KeptKeys(blocks: Blocks, bs: seq<Ptr>, time: nat)
    ensures Kept(blocks, bs, time).Keys <= blocks.Keys
  {
  }
}
