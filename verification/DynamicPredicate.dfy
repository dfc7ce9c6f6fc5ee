/** A dynamic predicate: chains, hash table, stamps, reference count and the calls in progress.
    Every operation is shown to be a step of the database its callers see.
 */
module DynamicPredicate {
  import opened DynamicHashTable
  import opened ClauseChains
  import opened ChainMemory
  import opened Database
  import opened ClauseIndex

  /** What the choice point of a call holds: the link cell of its next clause and its stamp. */
  datatype ChoicePoint = ChoicePoint(next: Ptr, time: nat)

  /** The choice point p stands for the call c. */
  ghost predicate Points(p: ChoicePoint, c: Call, links: Links, owner: Owners, patterns: Patterns) {
    && p.time == c.time && (p.next == NULL <==> c.next == NULL)
    && (p.next != NULL ==>
          && p.next in links && links[p.next].block == c.next
          && p.next in owner && owner[p.next] in patterns && patterns[owner[p.next]] == c.pattern)
  }

  ghost predicate CallsOk(points: map<nat, ChoicePoint>, calls: map<nat, Call>, links: Links, owner: Owners, patterns: Patterns) {
    points.Keys == calls.Keys && forall i :: i in points ==> Points(points[i], calls[i], links, owner, patterns)
  }

  /** New cells and new chains leave the choice points as they are. */
  lemma CallsKept(points: map<nat, ChoicePoint>, calls: map<nat, Call>, links: Links, owner: Owners, patterns: Patterns,
                  links': Links, owner': Owners, patterns': Patterns)
    requires CallsOk(points, calls, links, owner, patterns) && CellsKept(links, owner, links', owner')
    requires Extends(patterns, patterns')
    ensures CallsOk(points, calls, links', owner', patterns')
  {
    forall i | i in points ensures Points(points[i], calls[i], links', owner', patterns') {
      assert Points(points[i], calls[i], links, owner, patterns);
    }
  }

  lemma CellsKeptTwice(links: Links, owner: Owners, links1: Links, owner1: Owners, links2: Links, owner2: Owners)
    requires CellsKept(links, owner, links1, owner1) && CellsKept(links1, owner1, links2, owner2)
    ensures CellsKept(links, owner, links2, owner2)
  {
  }

  /** The chains of the first n slots. */
  ghost function SlotChains(t: seq<Entry<ChainRef>>, n: nat): (s: set<ChainRef>)
    requires n <= |t|
    ensures forall i :: 0 <= i < n && t[i].Entry? ==> t[i].chain in s
    ensures forall c :: c in s ==> exists i :: 0 <= i < n && t[i].Entry? && t[i].chain == c
  {
    set i | 0 <= i < n && t[i].Entry? :: t[i].chain
  }

  /** The iterator has moved from slot n to slot r: one more chain, not seen before. */
  lemma NextSlot(t: seq<Entry<ChainRef>>, n: nat, r: int, iterPos: nat, patterns: Patterns, keys: set<Key>, nextChain: nat)
    requires Ok(t) && TableOk(patterns, Entries(t), keys, nextChain) && NextEntry(t, n, r, iterPos) && r != -1
    ensures n <= r < |t| && t[r].Entry? && iterPos == r + 1 <= |t|
    ensures SlotChains(t, r + 1) == SlotChains(t, n) + {t[r].chain}
    ensures t[r].chain !in SlotChains(t, n) && t[r].chain in patterns && t[r].chain.Hashed?
  {
    SlotNext(t, n, r);
    assert t[r] in Entries(t);
    forall i | 0 <= i < n && t[i].Entry? ensures t[i].chain != t[r].chain {
      assert t[i] in Entries(t) && t[i].key != t[r].key by { OneSlotAKey(t, i, r); }
    }
  }

  lemma SlotNext(t: seq<Entry<ChainRef>>, n: nat, r: nat)
    requires n <= r < |t| && t[r].Entry? && forall i :: n <= i < r ==> t[i].Empty?
    ensures SlotChains(t, r + 1) == SlotChains(t, n) + {t[r].chain}
  {
  }

  lemma EntryInTable(t: seq<Entry<ChainRef>>, n: nat, r: int, iterPos: nat)
    requires NextEntry(t, n, r, iterPos) && r != -1
    ensures 0 <= n <= r < |t|
  {
  }

  lemma LastSlot(t: seq<Entry<ChainRef>>, n: nat, iterPos: nat)
    requires NextEntry(t, n, -1, iterPos)
    ensures n <= |t|
    ensures forall e :: e in Entries(t) && e.Entry? ==> e.chain in SlotChains(t, n)
  {
  }

  lemma EmptyOk(patterns: Patterns, arity: nat)
    requires patterns == map[AllChain := Any, VarChain := if arity == 0 then NoClause else VarOnly]
    ensures FixedOk(patterns, arity, {}) && TableOk(patterns, {}, {}, 0) && Inv(EmptyDb)
    ensures IndexOk(map[AllChain := [], VarChain := []], patterns, map[], [])
    ensures CallsOk(map[], map[], map[], map[], patterns)
  {
  }

  lemma CopyOne(bs: seq<Ptr>, vars: seq<Ptr>, i: nat)
    requires i < |vars|
    ensures WithAdded(bs + vars[..i], vars[i], false) == bs + vars[..i + 1]
  {
    assert vars[..i + 1] == vars[..i] + [vars[i]];
  }

  class DynamicPredicate {
    const clauseArity: nat
    const memory: ChainMemory
    const indexedClauses: HashTable<ChainRef>
    var nextChain: nat
    var stamp: nat
    var dirty: bool
    var refcount: nat
    var points: map<nat, ChoicePoint>
    ghost var patterns: Patterns
    ghost var db: Db

    ghost predicate ChainsValid(blocks: Blocks, all: seq<Ptr>, keys: set<Key>)
      reads this`patterns, this`nextChain, memory, indexedClauses, indexedClauses.table
    {
      && memory.Valid() && indexedClauses.Valid() && indexedClauses.table.Length >= 4
      && FixedOk(patterns, clauseArity, keys) && TableOk(patterns, indexedClauses.Contents(), keys, nextChain)
      && memory.blocks == blocks && IndexOk(memory.chains, patterns, blocks, all)
    }

    ghost predicate Valid()
      reads this, memory, indexedClauses, indexedClauses.table
    {
      && Inv(db) && ChainsValid(db.blocks, db.all, db.keys)
      && stamp == db.stamp && dirty == db.dirty && refcount == |points|
      && CallsOk(points, db.calls, memory.links, memory.owner, patterns)
    }

    /** A predicate without arguments has nothing to index on. */
    function IndexKey(k: Key): Key {
      if clauseArity == 0 then Key(0, 0) else k
    }

    constructor (arity: nat, tabSize: nat)
      requires tabSize >= 2
      ensures Valid() && db == EmptyDb && fresh(memory) && fresh(indexedClauses) && fresh(indexedClauses.table)
    {
      hide ChainsOk, OwnersOk, CellsOk, Ok, Count, Inv, TableOk, IndexOk;
      clauseArity := arity;
      memory := new ChainMemory();
      indexedClauses := new HashTable<ChainRef>(tabSize);
      nextChain, stamp, dirty, refcount, points := 0, 1, false, 0, map[];
      patterns := map[AllChain := Any, VarChain := if arity == 0 then NoClause else VarOnly];
      db := EmptyDb;
      new;
      EmptyOk(patterns, arity);
    }

    /** addToHashedChains, the body of the loop: the next entry is that of slot index. */
    method AddToSlot(index: nat, front: bool, codeBlock: Ptr, ghost n: nat, ghost chains0: Contents,
                     ghost done0: set<ChainRef>, ghost keys: set<Key>)
      requires memory.Valid() && indexedClauses.Valid() && codeBlock in memory.blocks && index < indexedClauses.table.Length
      requires TableOk(patterns, indexedClauses.Contents(), keys, nextChain) && chains0.Keys == patterns.Keys
      requires NextEntry(indexedClauses.table[..], n, index, indexedClauses.iterPos)
      requires n <= |indexedClauses.table[..]| && done0 == {AllChain, VarChain}
      requires memory.chains == AddedTo(chains0, done0 + SlotChains(indexedClauses.table[..], n), codeBlock, front)
      modifies memory`links, memory`ends, memory`top, memory`spine, memory`chains, memory`owner
      ensures memory.Valid() && CellsKept(old(memory.links), old(memory.owner), memory.links, memory.owner)
      ensures indexedClauses.iterPos == index + 1
      ensures memory.chains == AddedTo(chains0, done0 + SlotChains(indexedClauses.table[..], index + 1), codeBlock, front)
    {
      hide *;
      ghost var t := indexedClauses.table[..];
      TableIsOk(indexedClauses);
      NextSlot(t, n, index, indexedClauses.iterPos, patterns, keys, nextChain);
      var c := indexedClauses.table[index].chain;
      AddedToOne(chains0, done0 + SlotChains(t, n), codeBlock, front, c);
      memory.AddToChain(c, codeBlock, front);
      assert done0 + SlotChains(t, n) + {c} == done0 + SlotChains(t, index + 1);
    }

    /** addToHashedChains */
    method AddToHashedChains(front: bool, codeBlock: Ptr, ghost chains0: Contents, ghost done0: set<ChainRef>,
                             ghost keys: set<Key>)
      returns (ghost done: set<ChainRef>)
      requires memory.Valid() && indexedClauses.Valid() && codeBlock in memory.blocks
      requires TableOk(patterns, indexedClauses.Contents(), keys, nextChain) && chains0.Keys == patterns.Keys
      requires memory.chains == AddedTo(chains0, done0, codeBlock, front) && done0 == {AllChain, VarChain}
      modifies indexedClauses`iterPos, memory`links, memory`ends, memory`top, memory`spine, memory`chains, memory`owner
      ensures memory.Valid() && CellsKept(old(memory.links), old(memory.owner), memory.links, memory.owner)
      ensures memory.chains == AddedTo(chains0, done, codeBlock, front)
      ensures done0 <= done && forall e :: e in indexedClauses.Contents() && e.Entry? ==> e.chain in done
    {
      hide *;
      ghost var t := indexedClauses.table[..];
      TableIsOk(indexedClauses);
      indexedClauses.IterReset();
      ghost var n := 0;
      var index := indexedClauses.IterNext();
      NoSlot(t);
      assert done0 + SlotChains(t, 0) == done0;
      CellsKeptRefl(memory.links, memory.owner);
      while index != -1
        invariant n <= |t| && indexedClauses.table[..] == t && NextEntry(t, n, index, indexedClauses.iterPos)
        invariant memory.Valid() && codeBlock in memory.blocks
        invariant CellsKept(old(memory.links), old(memory.owner), memory.links, memory.owner)
        invariant memory.chains == AddedTo(chains0, done0 + SlotChains(t, n), codeBlock, front)
        decreases |t| - n
      {
        ghost var links1, owner1 := memory.links, memory.owner;
        EntryInTable(t, n, index, indexedClauses.iterPos);
        AddToSlot(index, front, codeBlock, n, chains0, done0, keys);
        CellsKeptTwice(old(memory.links), old(memory.owner), links1, owner1, memory.links, memory.owner);
        n := index + 1;
        index := indexedClauses.IterNext();
      }
      LastSlot(t, n, indexedClauses.iterPos);
      done := done0 + SlotChains(t, n);
    }

    /** The chain of the hash table entry with key k, added with an empty chain when absent. */
    method FindEntry(k: Key, ghost keys: set<Key>) returns (c: ChainRef)
      requires memory.Valid() && indexedClauses.Valid() && indexedClauses.table.Length >= 4 && !IsVar(k)
      requires TableOk(patterns, indexedClauses.Contents(), keys, nextChain) && memory.chains.Keys == patterns.Keys
      modifies this`nextChain, this`patterns, indexedClauses, indexedClauses.table, memory`ends, memory`spine, memory`chains
      ensures memory.Valid() && indexedClauses.Valid() && indexedClauses.table.Length >= 4
      ensures indexedClauses.table == old(indexedClauses.table) || fresh(indexedClauses.table)
      ensures TableOk(patterns, indexedClauses.Contents(), keys + {k}, nextChain)
      ensures Entry(k, c) in indexedClauses.Contents()
      ensures k in keys ==> memory.chains == old(memory.chains) && patterns == old(patterns)
      ensures k !in keys ==> c !in old(patterns) && memory.chains == old(memory.chains)[c := []] && patterns == old(patterns)[c := KeyOrVar(k)]
    {
      hide *;
      TableIsOk(indexedClauses);
      KeysOfTable(indexedClauses.table[..], patterns, keys, nextChain, k);
      var index := indexedClauses.Search(k);
      if index == -1 {
        TableAdd(patterns, indexedClauses.Contents(), keys, nextChain, k);
        c := Hashed(nextChain);
        memory.NewChain(c);
        var r;
        r, index := indexedClauses.Insert(Entry(k, c));
        nextChain, patterns := nextChain + 1, patterns[c := KeyOrVar(k)];
      } else {
        assert keys + {k} == keys;
        c := indexedClauses.table[index].chain;
      }
    }

    /** copyVarClauses */
    method CopyVarClauses(c: ChainRef)
      requires memory.Valid() && c in memory.chains && VarChain in memory.chains && c != VarChain
      modifies memory`links, memory`ends, memory`top, memory`spine, memory`chains, memory`owner
      ensures memory.Valid() && CellsKept(old(memory.links), old(memory.owner), memory.links, memory.owner)
      ensures memory.chains == old(memory.chains)[c := old(memory.chains)[c] + old(memory.chains)[VarChain]]
    {
      hide *;
      memory.FirstIs(VarChain);
      ghost var chains0, i := memory.chains, 0;
      ghost var vars := chains0[VarChain];
      ghost var ps := memory.spine[VarChain];
      var iter := memory.ends[VarChain].first;
      CellsKeptRefl(memory.links, memory.owner);
      assert chains0[c] + vars[..0] == chains0[c];
      memory.LookAt(VarChain, i);
      while iter != NULL
        invariant memory.Valid() && CellsKept(old(memory.links), old(memory.owner), memory.links, memory.owner)
        invariant VarChain in memory.spine && memory.spine[VarChain] == ps && i <= |ps| == |vars| && iter == At(ps, i)
        invariant memory.chains == chains0[c := chains0[c] + vars[..i]]
        decreases |ps| - i
      {
        ghost var links1, owner1 := memory.links, memory.owner;
        memory.LookAt(VarChain, i);
        memory.AddToChain(c, memory.links[iter].block, false);
        CellsKeptTwice(old(memory.links), old(memory.owner), links1, owner1, memory.links, memory.owner);
        memory.LookAt(VarChain, i);
        iter, i := memory.links[iter].next, i + 1;
        CopyOne(chains0[c], vars, i - 1);
      }
      memory.LookAt(VarChain, i);
      assert vars[..i] == vars;
    }

    /** A chain without clauses begins with the variable clauses. */
    method StartChain(c: ChainRef)
      requires memory.Valid() && c in memory.chains && VarChain in memory.chains && c != VarChain
      modifies memory`links, memory`ends, memory`top, memory`spine, memory`chains, memory`owner
      ensures memory.Valid() && CellsKept(old(memory.links), old(memory.owner), memory.links, memory.owner)
      ensures memory.chains == Copied(old(memory.chains), c)
    {
      hide *;
      memory.FirstIs(c);
      CellsKeptRefl(memory.links, memory.owner);
      if memory.ends[c].first == NULL {
        CopyVarClauses(c);
      }
    }

    /** assertClause, the part for a clause with a key: the clause is on the chain of all clauses
        already. */
    method AddKeyed(k: Key, block: Ptr, front: bool, ghost chains0: Contents, ghost blocks0: Blocks, ghost all0: seq<Ptr>,
                    ghost keys: set<Key>)
      returns (ghost chains1: Contents, c: ChainRef)
      requires memory.Valid() && indexedClauses.Valid() && indexedClauses.table.Length >= 4 && !IsVar(k) && clauseArity > 0
      requires FixedOk(patterns, clauseArity, keys) && TableOk(patterns, indexedClauses.Contents(), keys, nextChain)
      requires block in memory.blocks && IndexOk(chains0, patterns, blocks0, all0)
      requires forall b :: b in all0 && b in blocks0 ==> IsVar(blocks0[b].key) || blocks0[b].key in keys
      requires memory.chains == AddedTo(chains0, {AllChain}, block, front)
      modifies this`nextChain, this`patterns, indexedClauses, indexedClauses.table
      modifies memory`links, memory`ends, memory`top, memory`spine, memory`chains, memory`owner
      ensures memory.Valid() && CellsKept(old(memory.links), old(memory.owner), memory.links, memory.owner)
      ensures indexedClauses.Valid() && indexedClauses.table.Length >= 4
      ensures indexedClauses.table == old(indexedClauses.table) || fresh(indexedClauses.table)
      ensures FixedOk(patterns, clauseArity, keys + {k}) && TableOk(patterns, indexedClauses.Contents(), keys + {k}, nextChain)
      ensures Extends(old(patterns), patterns) && IndexOk(chains1, patterns, blocks0, all0)
      ensures Entry(k, c) in indexedClauses.Contents()
      ensures memory.chains == AddedTo(chains1, {AllChain, c}, block, front)
    {
      hide *;
      ghost var patterns0 := patterns;
      IndexKeys(chains0, patterns, blocks0, all0);
      c := FindEntry(k, keys);
      EntryKnown(patterns, indexedClauses.Contents(), keys + {k}, nextChain, k, c);
      FixedStays(patterns0, clauseArity, keys, c, k);
      KeyChainReady(chains0, patterns0, blocks0, all0, clauseArity, keys, k, c, block, front);
      chains1 := Started(chains0, c, k, keys);
      assert Extends(patterns0, patterns) by { PatternAdded(patterns0, c, KeyOrVar(k)); }
      StartChain(c);
      AddedToOne(chains1, {AllChain}, block, front, c);
      ghost var links1, owner1 := memory.links, memory.owner;
      memory.AddToChain(c, block, front);
      CellsKeptTwice(old(memory.links), old(memory.owner), links1, owner1, memory.links, memory.owner);
      assert {AllChain} + {c} == {AllChain, c};
    }

    /** assertClause, the part for a clause without a key. */
    method AddUnkeyed(key: Key, block: Ptr, front: bool, ghost chains0: Contents, ghost keys: set<Key>)
      returns (ghost done: set<ChainRef>)
      requires memory.Valid() && indexedClauses.Valid() && block in memory.blocks && (clauseArity == 0 || IsVar(key))
      requires FixedOk(patterns, clauseArity, keys) && TableOk(patterns, indexedClauses.Contents(), keys, nextChain)
      requires memory.chains == AddedTo(chains0, {AllChain}, block, front) && chains0.Keys == patterns.Keys
      modifies indexedClauses`iterPos, memory`links, memory`ends, memory`top, memory`spine, memory`chains, memory`owner
      ensures memory.Valid() && CellsKept(old(memory.links), old(memory.owner), memory.links, memory.owner)
      ensures memory.chains == AddedTo(chains0, done, block, front)
      ensures forall d :: d in patterns ==> (d in done <==> Matches(patterns[d], IndexKey(key)))
    {
      hide *;
      ghost var links0, owner0 := memory.links, memory.owner;
      ZeroIsVar(key);
      FixedIn(patterns, clauseArity, keys);
      if clauseArity == 0 {
        CellsKeptRefl(memory.links, memory.owner);
        done := {AllChain};
      } else {
        AddedToOne(chains0, {AllChain}, block, front, VarChain);
        assert {AllChain} + {VarChain} == {AllChain, VarChain};
        memory.AddToChain(VarChain, block, front);
        ghost var links1, owner1 := memory.links, memory.owner;
        done := AddToHashedChains(front, block, chains0, {AllChain, VarChain}, keys);
        CellsKeptTwice(links0, owner0, links1, owner1, memory.links, memory.owner);
      }
      VarMatches(patterns, indexedClauses.Contents(), keys, nextChain, clauseArity, done, IndexKey(key));
    }

    lemma ZeroIsVar(key: Key)
      ensures clauseArity == 0 || IsVar(key) ==> IsVar(IndexKey(key))
      ensures clauseArity > 0 ==> IndexKey(key) == key
    {
    }

    /** assertClause */
    method AssertClause(key: Key, front: bool, ghost blocks0: Blocks, ghost all0: seq<Ptr>, ghost keys: set<Key>)
      returns (newblock: Ptr)
      requires ChainsValid(blocks0, all0, keys) && forall b :: b in all0 ==> b in blocks0
      requires forall b :: b in all0 && b in blocks0 ==> IsVar(blocks0[b].key) || blocks0[b].key in keys
      modifies this`nextChain, this`patterns, memory, indexedClauses, indexedClauses.table
      ensures newblock !in blocks0 && newblock != NULL
      ensures indexedClauses.table == old(indexedClauses.table) || fresh(indexedClauses.table)
      ensures ChainsValid(blocks0[newblock := CodeBlock(stamp + 1, NEVER, IndexKey(key))], WithAdded(all0, newblock, front),
                          if IsVar(IndexKey(key)) then keys else keys + {IndexKey(key)})
      ensures CellsKept(old(memory.links), old(memory.owner), memory.links, memory.owner)
      ensures Extends(old(patterns), patterns)
    {
      hide ChainsOk, OwnersOk, CellsOk, TableOk, FixedOk, IndexOk, Ok, Count, Entries, AddedTo, WithAdded, Matches,
        CellsKept, Extends, IsVar;
      var newtime := stamp + 1;
      newblock := memory.NewBlock(CodeBlock(newtime, NEVER, IndexKey(key)));
      ghost var chains0, chains1, done := memory.chains, memory.chains, {AllChain};
      ghost var links0, owner0 := memory.links, memory.owner;
      IndexKeys(chains0, patterns, blocks0, all0);
      FixedIn(patterns, clauseArity, keys);
      AddedToNone(chains0, newblock, front);
      AddedToOne(chains0, {}, newblock, front, AllChain);
      assert {} + {AllChain} == {AllChain};
      memory.AddToChain(AllChain, newblock, front);
      ghost var links1, owner1 := memory.links, memory.owner;
      PatternAdded(patterns, AllChain, Any);
      ZeroIsVar(key);
      if clauseArity == 0 || IsVar(key) {
        done := AddUnkeyed(key, newblock, front, chains0, keys);
      } else {
        var c;
        chains1, c := AddKeyed(key, newblock, front, chains0, blocks0, all0, keys);
        KeyMatches(patterns, indexedClauses.Contents(), keys + {key}, nextChain, clauseArity, c, key);
        done := {AllChain, c};
      }
      CellsKeptTwice(links0, owner0, links1, owner1, memory.links, memory.owner);
      IndexAdded(chains1, patterns, blocks0, all0, done, newblock, CodeBlock(newtime, NEVER, IndexKey(key)), front);
    }

    /** psi_assert */
    method Assert(key: Key, front: bool) returns (ghost e: Event)
      requires Valid() && stamp + 1 < NEVER
      modifies this, memory, indexedClauses, indexedClauses.table
      ensures Valid() && (indexedClauses.table == old(indexedClauses.table) || fresh(indexedClauses.table))
      ensures e.Assert? && e.key == IndexKey(key) && e.front == front
      ensures Enabled(old(db), e) && db == Step(old(db), e)
    {
      hide ChainsValid, Inv, CallsOk, CellsKept, Extends, IsVar, WithAdded;
      ClausesKnown(db);
      ghost var links0, owner0, patterns0 := memory.links, memory.owner, patterns;
      var newblock := AssertClause(key, front, db.blocks, db.all, db.keys);
      stamp := stamp + 1;
      e := Event.Assert(newblock, IndexKey(key), front);
      StepKeepsInv(db, e);
      CallsKept(points, db.calls, links0, owner0, patterns0, memory.links, memory.owner, patterns);
      db := Step(db, e);
    }

    /** psi_retract: ref is the link cell of the clause. */
    method Retract(ref: Ptr) returns (ghost e: Event)
      requires Valid() && stamp + 1 < NEVER
      requires ref in memory.links && memory.links[ref].block in memory.blocks
      modifies this, memory`blocks
      ensures Valid() && e == Event.Retract(memory.links[ref].block)
      ensures Enabled(old(db), e) && db == Step(old(db), e)
    {
      hide Inv, CallsOk, ChainsOk, OwnersOk, CellsOk, TableOk, FixedOk, IndexOk, Ok, Count, Entries;
      var codeb := memory.links[ref].block;
      ClausesKnown(db);
      IndexRetracted(memory.chains, patterns, db.blocks, db.all, codeb, stamp + 1);
      dirty := true;
      stamp := stamp + 1;
      memory.SetDelete(codeb, stamp);
      e := Event.Retract(codeb);
      StepKeepsInv(db, e);
      db := Step(db, e);
    }

    /** lookUpClauseChain */
    method LookUpClauseChain(goal: Key, ghost keys: set<Key>) returns (c: ChainRef)
      requires indexedClauses.Valid() && FixedOk(patterns, clauseArity, keys)
      requires TableOk(patterns, indexedClauses.Contents(), keys, nextChain)
      ensures c in patterns && patterns[c] == LookUp(keys, IndexKey(goal))
    {
      hide TableOk, Ok, Entries, Count, FixedOk;
      TableIsOk(indexedClauses);
      FixedIn(patterns, clauseArity, keys);
      if clauseArity == 0 || IsVar(goal) {
        return AllChain;
      }
      KeysOfTable(indexedClauses.table[..], patterns, keys, nextChain, goal);
      var index := indexedClauses.Search(goal);
      if index == -1 {
        return VarChain;
      }
      c := indexedClauses.table[index].chain;
      EntryKnown(patterns, indexedClauses.Contents(), keys, nextChain, goal, c);
    }

    /** initializeDPcall, the part that looks up: the link cells of the first two clauses of the call,
        and the call after its first clause. */
    method FirstTwo(goal: Key, time: nat, ghost call: nat) returns (p: Ptr, nextClause: Ptr, ghost c: Call)
      requires Valid() && call !in db.calls && time <= stamp
      ensures Enabled(db, Begin(call, IndexKey(goal), time))
      ensures p == NULL ==> Step(db, Begin(call, IndexKey(goal), time)) == db
      ensures p != NULL ==>
                var db1 := Step(db, Begin(call, IndexKey(goal), time));
                && p in memory.links && memory.links[p].block != NULL
                && call in db1.calls && db1.calls[call].next == memory.links[p].block && Enabled(db1, Next(call))
                && Step(db1, Next(call)) == db.(calls := db.calls[call := c])
                && Points(ChoicePoint(nextClause, time), c, memory.links, memory.owner, patterns)
    {
      hide Inv, CallsOk, ChainsOk, OwnersOk, CellsOk, TableOk, FixedOk, IndexOk, Ok, Count, Entries, Step, Enabled, LookUp,
        FirstAlive, Select, Points;
      InvClauses(db);
      var chain := LookUpClauseChain(goal, db.keys);
      ChainIs(memory.chains, patterns, db.blocks, db.all, chain);
      memory.FirstIs(chain);
      nextClause := NULL;
      ghost var i;
      p, i := memory.NextAlive(memory.ends[chain].first, time, chain, 0);
      BeginAt(db, call, IndexKey(goal), time, memory.chains[chain], i);
      if p != NULL {
        ghost var j;
        nextClause, j := memory.NextNextAlive(p, time, chain, i);
        BeginNextAt(db, call, IndexKey(goal), time, memory.chains[chain], i, j);
        c := Call(LookUp(db.keys, IndexKey(goal)), time, if nextClause == NULL then NULL else memory.chains[chain][j],
                  [memory.chains[chain][i]]);
        PointsTo(ChoicePoint(nextClause, time), c, memory.links, memory.owner, patterns);
      } else {
        c := Call(Any, time, NULL, []);
      }
    }

    /** psi_get_first_clause: the first clause alive at the given stamp, or NULL, and whether there are more.  With a
        clause the call is in progress and holds a reference. */
    method GetFirstClause(call: nat, goal: Key, time: nat) returns (block: Ptr, more: bool)
      requires Valid() && call !in points && time <= stamp
      modifies this
      ensures Valid() && Enabled(old(db), Begin(call, IndexKey(goal), time))
      ensures var db1 := Step(old(db), Begin(call, IndexKey(goal), time));
              if block == NULL then db == old(db) == db1 && call !in db.calls
              else && call in db1.calls && db1.calls[call].next == block
                   && Enabled(db1, Next(call)) && db == Step(db1, Next(call))
      ensures block != NULL ==> call in db.calls && (more <==> db.calls[call].next != NULL)
    {
      hide Inv, CallsOk, ChainsOk, OwnersOk, CellsOk, TableOk, FixedOk, IndexOk, Ok, Count, Entries, Step, Enabled, Points;
      PointsKeys(points, db.calls, memory.links, memory.owner, patterns);
      var p, nextClause; ghost var c;
      p, nextClause, c := FirstTwo(goal, time, call);
      if p == NULL {
        return NULL, false;
      }
      refcount := refcount + 1;
      OneCallMore(points, db.calls, memory.links, memory.owner, patterns, call, ChoicePoint(nextClause, time), c);
      PointsNext(ChoicePoint(nextClause, time), c, memory.links, memory.owner, patterns);
      points := points[call := ChoicePoint(nextClause, time)];
      ghost var db1 := Step(db, Begin(call, IndexKey(goal), time));
      StepKeepsInv(db, Begin(call, IndexKey(goal), time));
      StepKeepsInv(db1, Next(call));
      db := Step(db1, Next(call));
      block, more := memory.links[p].block, nextClause != NULL;
    }

    /** initializeDPcall: the first clause of the call, or NULL, at the present stamp. */
    method InitializeCall(call: nat, goal: Key) returns (block: Ptr)
      requires Valid() && call !in points
      modifies this
      ensures Valid() && Enabled(old(db), Begin(call, IndexKey(goal), old(stamp)))
      ensures var db1 := Step(old(db), Begin(call, IndexKey(goal), old(stamp)));
              if block == NULL then db == old(db) == db1 && call !in db.calls
              else && call in db1.calls && db1.calls[call].next == block
                   && Enabled(db1, Next(call)) && db == Step(db1, Next(call))
    {
      hide *;
      var more;
      block, more := GetFirstClause(call, goal, stamp);
    }

    /** Backtracking to the choice point of the call: its next clause. */
    method NextClause(call: nat) returns (block: Ptr)
      requires Valid() && call in points && points[call].next != NULL
      modifies this`points, this`db
      ensures Valid() && Enabled(old(db), Next(call)) && db == Step(old(db), Next(call))
      ensures call in old(db).calls && block == old(db).calls[call].next
    {
      hide Inv, CallsOk, ChainsOk, OwnersOk, CellsOk, TableOk, FixedOk, IndexOk, Ok, Count, Entries, Step, Enabled,
        FirstAlive, Select, Points;
      InvClauses(db);
      PointOf(points, db.calls, memory.links, memory.owner, patterns, call);
      var p, time := points[call].next, points[call].time;
      ghost var chain := memory.owner[p];
      ghost var i := memory.CellIndex(p);
      ChainIs(memory.chains, patterns, db.blocks, db.all, chain);
      var nextClause; ghost var j;
      nextClause, j := memory.NextNextAlive(p, time, chain, i);
      NextAt(db, call, memory.chains[chain], i, j);
      ghost var c := db.calls[call];
      ghost var c' := c.(next := if nextClause == NULL then NULL else memory.chains[chain][j], delivered := c.delivered + [c.next]);
      PointsTo(ChoicePoint(nextClause, time), c', memory.links, memory.owner, patterns);
      OneCallMore(points, db.calls, memory.links, memory.owner, patterns, call, ChoicePoint(nextClause, time), c');
      points := points[call := ChoicePoint(nextClause, time)];
      StepKeepsInv(db, Next(call));
      db := Step(db, Next(call));
      block := memory.links[p].block;
    }

    /** gcPredicate, the body of the loop: the next entry is that of slot index. */
    method GcSlot(index: nat, time: nat, ghost n: nat, ghost chains0: Contents, ghost keys: set<Key>)
      requires memory.Valid() && indexedClauses.Valid() && index < indexedClauses.table.Length && chains0.Keys == patterns.Keys
      requires TableOk(patterns, indexedClauses.Contents(), keys, nextChain) && n <= |indexedClauses.table[..]|
      requires NextEntry(indexedClauses.table[..], n, index, indexedClauses.iterPos)
      requires memory.chains == CollectedFrom(chains0, SlotChains(indexedClauses.table[..], n), Retracted(memory.blocks, time))
      modifies memory`links, memory`blocks, memory`ends, memory`spine, memory`chains, memory`owner
      ensures memory.Valid() && memory.blocks == old(memory.blocks) && indexedClauses.iterPos == index + 1
      ensures memory.chains == CollectedFrom(chains0, SlotChains(indexedClauses.table[..], index + 1), Retracted(memory.blocks, time))
      ensures forall c :: c in SlotChains(indexedClauses.table[..], index + 1) ==> c in SlotChains(indexedClauses.table[..], n) || c.Hashed?
    {
      hide *;
      ghost var t := indexedClauses.table[..];
      TableIsOk(indexedClauses);
      NextSlot(t, n, index, indexedClauses.iterPos, patterns, keys, nextChain);
      var c := indexedClauses.table[index].chain;
      CollectedFromOne(chains0, SlotChains(t, n), Retracted(memory.blocks, time), c);
      memory.GcChain(c, time, false);
    }

    /** gcPredicate, the part over the hash table. */
    method GcHashedChains(time: nat, ghost chains0: Contents, ghost keys: set<Key>) returns (ghost done: set<ChainRef>)
      requires memory.Valid() && indexedClauses.Valid() && memory.chains == chains0 && chains0.Keys == patterns.Keys
      requires TableOk(patterns, indexedClauses.Contents(), keys, nextChain)
      modifies indexedClauses`iterPos, memory`links, memory`blocks, memory`ends, memory`spine, memory`chains, memory`owner
      ensures memory.Valid() && memory.blocks == old(memory.blocks)
      ensures memory.chains == CollectedFrom(chains0, done, Retracted(memory.blocks, time))
      ensures AllChain !in done && VarChain !in done && forall c :: c in patterns && c.Hashed? ==> c in done
    {
      hide *;
      ghost var t, dead := indexedClauses.table[..], Retracted(memory.blocks, time);
      TableIsOk(indexedClauses);
      indexedClauses.IterReset();
      ghost var n := 0;
      var index := indexedClauses.IterNext();
      NoSlot(t);
      CollectedFromNone(chains0, dead);
      while index != -1
        invariant n <= |t| && indexedClauses.table[..] == t && NextEntry(t, n, index, indexedClauses.iterPos)
        invariant memory.Valid() && memory.blocks == old(memory.blocks)
        invariant memory.chains == CollectedFrom(chains0, SlotChains(t, n), dead)
        invariant AllChain !in SlotChains(t, n) && VarChain !in SlotChains(t, n)
        decreases |t| - n
      {
        EntryInTable(t, n, index, indexedClauses.iterPos);
        GcSlot(index, time, n, chains0, keys);
        n := index + 1;
        index := indexedClauses.IterNext();
      }
      LastSlot(t, n, indexedClauses.iterPos);
      done := SlotChains(t, n);
      ChainsListed(patterns, indexedClauses.Contents(), keys, nextChain, done);
    }

    /** gcPredicate */
    method GcPredicate(time: nat, ghost blocks0: Blocks, ghost all0: seq<Ptr>, ghost keys: set<Key>)
      requires ChainsValid(blocks0, all0, keys) && Distinct(all0) && forall b :: b in all0 ==> b in blocks0
      modifies this`dirty, indexedClauses`iterPos, memory`links, memory`blocks, memory`ends, memory`spine, memory`chains, memory`owner
      ensures !dirty && ChainsValid(Kept(blocks0, all0, time), Without(all0, Retracted(blocks0, time)), keys)
    {
      hide *;
      ChainsAre(blocks0, all0, keys);
      ghost var chains0, dead := memory.chains, Retracted(blocks0, time);
      IndexKeys(chains0, patterns, blocks0, all0);
      FixedIn(patterns, clauseArity, keys);
      AllIsAll(chains0, patterns, blocks0, all0, clauseArity, keys);
      ghost var done := GcHashedChains(time, chains0, keys);
      CollectedFromOne(chains0, done, dead, VarChain);
      memory.GcChain(VarChain, time, false);
      OnlyAllLeft(chains0, done + {VarChain}, dead, all0);
      CollectedFromOne(chains0, done + {VarChain}, dead, AllChain);
      memory.GcChain(AllChain, time, true);
      dirty := false;
      IndexCollected(chains0, patterns, blocks0, all0, done + {VarChain} + {AllChain}, time);
      ChainsAre(Kept(blocks0, all0, time), Without(all0, Retracted(blocks0, time)), keys);
    }

    lemma ChainsAre(blocks: Blocks, all: seq<Ptr>, keys: set<Key>)
      ensures ChainsValid(blocks, all, keys) <==>
              && memory.Valid() && indexedClauses.Valid() && indexedClauses.table.Length >= 4
              && FixedOk(patterns, clauseArity, keys) && TableOk(patterns, indexedClauses.Contents(), keys, nextChain)
              && memory.blocks == blocks && IndexOk(memory.chains, patterns, blocks, all)
    {
      hide ChainsOk, OwnersOk, CellsOk, TableOk, FixedOk, IndexOk, Ok, Count, Entries;
    }

    /** release: the call gives up its reference; when it was the last one the retracted clauses
        are collected. */
    method Release(call: nat)
      requires Valid() && call in points
      modifies this, indexedClauses`iterPos, memory`links, memory`blocks, memory`ends, memory`spine, memory`chains, memory`owner
      ensures Valid() && Enabled(old(db), End(call)) && db == Step(old(db), End(call))
    {
      hide ChainsValid, Inv, CallsOk, Retracted, Kept, Without, Step;
      ClausesKnown(db);
      OneCallLess(points, db.calls, memory.links, memory.owner, patterns, call);
      EndStep(db, call);
      ghost var e := End(call);
      StepKeepsInv(db, e);
      refcount := refcount - 1;
      points := points - {call};
      if refcount == 0 && dirty {
        GcPredicate(stamp, db.blocks, db.all, db.keys);
        NoCalls(memory.links, memory.owner, patterns);
      }
      db := Step(db, e);
    }
  }

  lemma PointsKeys(points: map<nat, ChoicePoint>, calls: map<nat, Call>, links: Links, owner: Owners, patterns: Patterns)
    requires CallsOk(points, calls, links, owner, patterns)
    ensures points.Keys == calls.Keys
  {
  }

  lemma PointsTo(p: ChoicePoint, c: Call, links: Links, owner: Owners, patterns: Patterns)
    requires p.time == c.time && (p.next == NULL <==> c.next == NULL)
    requires p.next != NULL ==>
               && p.next in links && links[p.next].block == c.next
               && p.next in owner && owner[p.next] in patterns && patterns[owner[p.next]] == c.pattern
    ensures Points(p, c, links, owner, patterns)
  {
  }

  lemma PointsNext(p: ChoicePoint, c: Call, links: Links, owner: Owners, patterns: Patterns)
    requires Points(p, c, links, owner, patterns)
    ensures p.next == NULL <==> c.next == NULL
  {
  }

  lemma OneCallMore(points: map<nat, ChoicePoint>, calls: map<nat, Call>, links: Links, owner: Owners, patterns: Patterns,
                    call: nat, p: ChoicePoint, c: Call)
    requires CallsOk(points, calls, links, owner, patterns) && Points(p, c, links, owner, patterns)
    ensures CallsOk(points[call := p], calls[call := c], links, owner, patterns)
    ensures |points[call := p]| == if call in points then |points| else |points| + 1
  {
    hide Points;
    OneMore(points, call, p);
  }

  lemma OneMore(points: map<nat, ChoicePoint>, call: nat, p: ChoicePoint)
    ensures |points[call := p]| == if call in points then |points| else |points| + 1
  {
    assert points[call := p].Keys == points.Keys + {call};
    assert |points| == |points.Keys| && |points[call := p]| == |points[call := p].Keys|;
    if call in points { assert points.Keys + {call} == points.Keys; }
  }

  lemma InvClauses(db: Db)
    requires Inv(db)
    ensures ClausesOk(db) && forall c :: c in db.calls ==> CallOk(db, db.calls[c])
  {
  }

  lemma ChainIs(chains: Contents, patterns: Patterns, blocks: Blocks, all: seq<Ptr>, c: ChainRef)
    requires IndexOk(chains, patterns, blocks, all) && c in patterns
    ensures c in chains && chains[c] == Select(blocks, all, patterns[c])
  {
  }

  lemma PointOf(points: map<nat, ChoicePoint>, calls: map<nat, Call>, links: Links, owner: Owners, patterns: Patterns, call: nat)
    requires CallsOk(points, calls, links, owner, patterns) && call in points && points[call].next != NULL
    ensures call in calls
    ensures var p, c := points[call], calls[call];
            && p.time == c.time && c.next != NULL && p.next in links && links[p.next].block == c.next
            && p.next in owner && owner[p.next] in patterns && patterns[owner[p.next]] == c.pattern
  {
    assert Points(points[call], calls[call], links, owner, patterns);
  }

  lemma OneCallLess(points: map<nat, ChoicePoint>, calls: map<nat, Call>, links: Links, owner: Owners, patterns: Patterns, call: nat)
    requires CallsOk(points, calls, links, owner, patterns) && call in points
    ensures call in calls && CallsOk(points - {call}, calls - {call}, links, owner, patterns)
    ensures |points - {call}| == |points| - 1 && (|points - {call}| == 0 <==> calls - {call} == map[])
    ensures |points - {call}| == 0 ==> points - {call} == map[]
  {
    var rest := points - {call};
    assert (calls - {call}).Keys == rest.Keys;
    assert points.Keys == rest.Keys + {call};
    assert |points.Keys| == |rest.Keys| + 1;
    hide Points;
  }

  lemma EndStep(db: Db, call: nat)
    requires call in db.calls
    ensures var db1 := db.(calls := db.calls - {call});
            Step(db, End(call)) == if db1.calls == map[] && db.dirty then Gc(db1) else db1
  {
  }

  lemma NoCalls(links: Links, owner: Owners, patterns: Patterns)
    ensures CallsOk(map[], map[], links, owner, patterns)
  {
  }

  lemma ClausesKnown(db: Db)
    requires Inv(db)
    ensures Distinct(db.all) && forall b :: b in db.all ==> b in db.blocks
    ensures forall b :: b in db.all && b in db.blocks ==> IsVar(db.blocks[b].key) || db.blocks[b].key in db.keys
  {
    hide CallOk;
  }

  lemma FixedIn(patterns: Patterns, arity: nat, keys: set<Key>)
    requires FixedOk(patterns, arity, keys)
    ensures AllChain in patterns && VarChain in patterns && patterns[AllChain] == Any
    ensures arity > 0 ==> patterns[VarChain] == VarOnly
  {
  }

  /** The keys of the table are those of its entries. */
  lemma KeysOfTable(t: seq<Entry<ChainRef>>, patterns: Patterns, keys: set<Key>, nextChain: nat, k: Key)
    requires Ok(t) && TableOk(patterns, Entries(t), keys, nextChain)
    ensures HasKey(t, k) <==> k in keys
    ensures forall p :: 0 <= p < |t| && t[p].Entry? ==> t[p] in Entries(t)
  {
    KeyOfEntries(t, Entries(t), k);
  }

  lemma PatternAdded(patterns: Patterns, c: ChainRef, pattern: Pattern)
    ensures Extends(patterns, patterns)
    ensures c !in patterns ==> Extends(patterns, patterns[c := pattern])
  {
  }

  ghost predicate Extends(patterns: Patterns, patterns': Patterns) {
    forall c :: c in patterns ==> c in patterns' && patterns'[c] == patterns[c]
  }

  lemma EntryKnown(patterns: Patterns, entries: Slots, keys: set<Key>, nextChain: nat, k: Key, c: ChainRef)
    requires TableOk(patterns, entries, keys, nextChain) && Entry(k, c) in entries
    ensures c.Hashed? && c in patterns && patterns[c] == KeyOrVar(k) && k in keys
  {
    assert Entry(k, c).chain == c;
  }

  lemma TableIsOk(h: HashTable<ChainRef>)
    requires h.Valid()
    ensures Ok(h.table[..]) && h.Contents() == Entries(h.table[..])
  {
  }

  lemma NoSlot(t: seq<Entry<ChainRef>>)
    ensures SlotChains(t, 0) == {}
  {
  }

  lemma CellsKeptRefl(links: Links, owner: Owners)
    ensures CellsKept(links, owner, links, owner)
  {
  }
}
