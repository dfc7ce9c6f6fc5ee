/** The chains of a dynamic predicate as an index: each chain is the subsequence of all clauses
    that its pattern selects, and the hash table has one chain for each key.
 */
module ClauseIndex {
  import opened DynamicHashTable
  import opened ClauseChains
  import opened Database

  type Contents = map<ChainRef, seq<Ptr>>
  type Patterns = map<ChainRef, Pattern>
  type Slots = set<Entry<ChainRef>>

  /** Each chain is what its pattern selects. */
  ghost predicate IndexOk(chains: Contents, patterns: Patterns, blocks: Blocks, all: seq<Ptr>) {
    chains.Keys == patterns.Keys && forall c :: c in chains ==> chains[c] == Select(blocks, all, patterns[c])
  }

  /** A predicate without arguments uses only the chain of all clauses. */
  ghost predicate FixedOk(patterns: Patterns, arity: nat, keys: set<Key>) {
    && (arity == 0 ==> keys == {}) && AllChain in patterns && patterns[AllChain] == Any
    && VarChain in patterns && patterns[VarChain] == if arity == 0 then NoClause else VarOnly
  }

  /** The table has one entry for each key, each with a chain of its own. */
  ghost predicate TableOk(patterns: Patterns, entries: Slots, keys: set<Key>, nextChain: nat) {
    && (forall c :: c in patterns && c.Hashed? ==> c.n < nextChain && patterns[c].KeyOrVar? && Entry(patterns[c].k, c) in entries)
    && (forall e :: e in entries ==> e.Entry? && e.chain.Hashed? && e.chain in patterns && patterns[e.chain] == KeyOrVar(e.key) && e.key in keys)
    && (forall k :: k in keys ==> !IsVar(k) && exists e :: e in entries && e.Entry? && e.key == k)
    && (forall e, f :: e in entries && f in entries && e.Entry? && f.Entry? && e.key == f.key ==> e == f)
  }

  // ------------------------------------------------------------------
  // A new clause
  // ------------------------------------------------------------------

  /** The clause b has been added to the chains in done. */
  ghost function AddedTo(chains: Contents, done: set<ChainRef>, b: Ptr, front: bool): (m: Contents)
    ensures m.Keys == chains.Keys
  {
    map c | c in chains :: if c in done then WithAdded(chains[c], b, front) else chains[c]
  }

  lemma AddedToNone(chains: Contents, b: Ptr, front: bool)
    ensures AddedTo(chains, {}, b, front) == chains
  {
  }

  lemma AddedToOne(chains: Contents, done: set<ChainRef>, b: Ptr, front: bool, c: ChainRef)
    requires c in chains && c !in done
    ensures var m := AddedTo(chains, done, b, front);
            c in m && m[c := WithAdded(m[c], b, front)] == AddedTo(chains, done + {c}, b, front)
  {
    hide WithAdded;
  }

  lemma IndexAdded(chains: Contents, patterns: Patterns, blocks: Blocks, all: seq<Ptr>, done: set<ChainRef>,
                   id: Ptr, block: CodeBlock, front: bool)
    requires IndexOk(chains, patterns, blocks, all) && id !in blocks && forall b :: b in all ==> b in blocks
    requires forall c :: c in patterns ==> (c in done <==> Matches(patterns[c], block.key))
    ensures IndexOk(AddedTo(chains, done, id, front), patterns, blocks[id := block], WithAdded(all, id, front))
  {
    hide Select, Matches, WithAdded;
    forall c | c in chains
      ensures AddedTo(chains, done, id, front)[c] == Select(blocks[id := block], WithAdded(all, id, front), patterns[c])
    {
      SelectAdded(blocks, all, id, block, front, patterns[c]);
    }
  }

  lemma FixedStays(patterns: Patterns, arity: nat, keys: set<Key>, c: ChainRef, k: Key)
    requires FixedOk(patterns, arity, keys) && c.Hashed? && arity > 0
    ensures FixedOk(patterns, arity, keys + {k}) && FixedOk(patterns[c := KeyOrVar(k)], arity, keys + {k})
    ensures AllChain in patterns && VarChain in patterns
  {
  }

  /** The chains that a clause with a key of its own joins. */
  lemma KeyMatches(patterns: Patterns, entries: Slots, keys: set<Key>, nextChain: nat, arity: nat, c: ChainRef, k: Key)
    requires FixedOk(patterns, arity, keys) && TableOk(patterns, entries, keys, nextChain) && Entry(k, c) in entries && !IsVar(k)
    ensures c.Hashed? && forall d :: d in patterns ==> (d in {AllChain, c} <==> Matches(patterns[d], k))
  {
    assert Entry(k, c).chain == c;
    forall d | d in patterns ensures d in {AllChain, c} <==> Matches(patterns[d], k) {
      if d.Hashed? && patterns[d].k == k {
        assert Entry(k, d) in entries && Entry(k, d).key == Entry(k, c).key;
      }
    }
  }

  /** A clause with a variable joins every chain. */
  lemma VarMatches(patterns: Patterns, entries: Slots, keys: set<Key>, nextChain: nat, arity: nat, done: set<ChainRef>, k: Key)
    requires FixedOk(patterns, arity, keys) && TableOk(patterns, entries, keys, nextChain) && IsVar(k)
    requires if arity == 0 then done == {AllChain}
             else AllChain in done && VarChain in done && forall e :: e in entries && e.Entry? ==> e.chain in done
    ensures forall d :: d in patterns ==> (d in done <==> Matches(patterns[d], k))
  {
    forall d | d in patterns ensures d in done <==> Matches(patterns[d], k) {
      if d.Hashed? { assert Entry(patterns[d].k, d) in entries && Entry(patterns[d].k, d).chain == d; }
    }
  }

  /** A stamp is not looked at when a chain is selected. */
  lemma IndexRetracted(chains: Contents, patterns: Patterns, blocks: Blocks, all: seq<Ptr>, id: Ptr, ts: nat)
    requires IndexOk(chains, patterns, blocks, all) && id in blocks && forall b :: b in all ==> b in blocks
    ensures IndexOk(chains, patterns, blocks[id := blocks[id].(deleted := ts)], all)
  {
    hide Select;
    forall c | c in chains ensures chains[c] == Select(blocks[id := blocks[id].(deleted := ts)], all, patterns[c]) {
      SelectSame(blocks, blocks[id := blocks[id].(deleted := ts)], all, patterns[c]);
    }
  }

  // ------------------------------------------------------------------
  // A new key
  // ------------------------------------------------------------------

  /** No clause has the key: its chain begins as a copy of the variable clauses. */
  lemma NewKeyChain(blocks: Blocks, all: seq<Ptr>, k: Key)
    requires forall b :: b in all && b in blocks ==> IsVar(blocks[b].key) || blocks[b].key != k
    ensures Select(blocks, all, KeyOrVar(k)) == Select(blocks, all, VarOnly)
  {
    FilterSame(all, b => b in blocks && Matches(KeyOrVar(k), blocks[b].key), b => b in blocks && Matches(VarOnly, blocks[b].key));
  }

  /** A chain collected to nothing has no variable clauses to copy either. */
  lemma EmptyKeyChain(blocks: Blocks, all: seq<Ptr>, k: Key)
    requires Select(blocks, all, KeyOrVar(k)) == []
    ensures Select(blocks, all, VarOnly) == []
  {
    var p, q := b => b in blocks && Matches(KeyOrVar(k), blocks[b].key), b => b in blocks && Matches(VarOnly, blocks[b].key);
    forall b | b in all ensures !q(b) { assert p(b) ==> b in Filter(all, p); }
    FilterNone(all, q);
  }

  lemma TableAdd(patterns: Patterns, entries: Slots, keys: set<Key>, nextChain: nat, k: Key)
    requires TableOk(patterns, entries, keys, nextChain) && k !in keys && !IsVar(k)
    ensures Hashed(nextChain) !in patterns
    ensures TableOk(patterns[Hashed(nextChain) := KeyOrVar(k)], entries + {Entry(k, Hashed(nextChain))}, keys + {k}, nextChain + 1)
  {
    var e0, entries' := Entry(k, Hashed(nextChain)), entries + {Entry(k, Hashed(nextChain))};
    forall k' | k' in keys + {k} ensures exists e :: e in entries' && e.Entry? && e.key == k' {
      if k' == k {
        assert e0 in entries' && e0.key == k;
      } else {
        var e :| e in entries && e.Entry? && e.key == k';
        assert e in entries';
      }
    }
  }

  lemma IndexNewChain(chains: Contents, patterns: Patterns, blocks: Blocks, all: seq<Ptr>, c: ChainRef, pattern: Pattern, bs: seq<Ptr>)
    requires IndexOk(chains, patterns, blocks, all) && bs == Select(blocks, all, pattern) && c !in patterns
    ensures IndexOk(chains[c := bs], patterns[c := pattern], blocks, all)
  {
  }

  /** The chain of a key once its entry has been found or added, and the variable clauses copied
      into it if it is empty. */
  ghost function Copied(m: Contents, c: ChainRef): (m': Contents)
    requires c in m && VarChain in m
    ensures m' == if m[c] == [] then m[c := m[c] + m[VarChain]] else m
  {
    if m[c] == [] then m[c := m[c] + m[VarChain]] else m
  }

  ghost function Started(chains: Contents, c: ChainRef, k: Key, keys: set<Key>): (m: Contents)
    requires VarChain in chains
    ensures chains.Keys <= m.Keys && (k !in keys ==> c in m)
  {
    if k in keys then chains else chains[c := chains[VarChain]]
  }

  lemma KeyChainReady(chains: Contents, patterns: Patterns, blocks: Blocks, all: seq<Ptr>, arity: nat, keys: set<Key>,
                      k: Key, c: ChainRef, b: Ptr, front: bool)
    requires IndexOk(chains, patterns, blocks, all) && FixedOk(patterns, arity, keys) && arity > 0 && !IsVar(k)
    requires forall b :: b in all && b in blocks ==> IsVar(blocks[b].key) || blocks[b].key in keys
    requires if k in keys then c in patterns && patterns[c] == KeyOrVar(k) else c !in patterns
    requires c != AllChain && c != VarChain
    ensures VarChain in chains && (k in keys ==> c in chains)
    ensures var m := AddedTo(chains, {AllChain}, b, front);
            Copied(if k in keys then m else m[c := []], c) == AddedTo(Started(chains, c, k, keys), {AllChain}, b, front)
    ensures var patterns' := if k in keys then patterns else patterns[c := KeyOrVar(k)];
            IndexOk(Started(chains, c, k, keys), patterns', blocks, all)
  {
    hide Select, WithAdded, AddedTo;
    if k in keys {
      if chains[c] == [] { EmptyKeyChain(blocks, all, k); }
    } else {
      NewKeyChain(blocks, all, k);
      IndexNewChain(chains, patterns, blocks, all, c, KeyOrVar(k), chains[VarChain]);
    }
    CopiedAdded(chains, c, k, keys, b, front);
  }

  lemma CopiedAdded(chains: Contents, c: ChainRef, k: Key, keys: set<Key>, b: Ptr, front: bool)
    requires c != AllChain && c != VarChain && VarChain in chains
    requires k in keys ==> c in chains && (chains[c] == [] ==> chains[VarChain] == [])
    ensures var m := AddedTo(chains, {AllChain}, b, front);
            Copied(if k in keys then m else m[c := []], c) == AddedTo(Started(chains, c, k, keys), {AllChain}, b, front)
  {
    hide WithAdded;
    var vars := chains[VarChain];
    assert [] + vars == vars;
  }

  lemma IndexKeys(chains: Contents, patterns: Patterns, blocks: Blocks, all: seq<Ptr>)
    requires IndexOk(chains, patterns, blocks, all)
    ensures chains.Keys == patterns.Keys
  {
  }

  // ------------------------------------------------------------------
  // Garbage collection
  // ------------------------------------------------------------------

  /** The clauses in dead have left the chains in done. */
  ghost function CollectedFrom(chains: Contents, done: set<ChainRef>, dead: set<Ptr>): (m: Contents)
    ensures m.Keys == chains.Keys
  {
    map c | c in chains :: if c in done then Without(chains[c], dead) else chains[c]
  }

  lemma CollectedFromNone(chains: Contents, dead: set<Ptr>)
    ensures CollectedFrom(chains, {}, dead) == chains
  {
  }

  lemma CollectedFromOne(chains: Contents, done: set<ChainRef>, dead: set<Ptr>, c: ChainRef)
    requires c in chains && c !in done
    ensures var m := CollectedFrom(chains, done, dead);
            c in m && m[c] == chains[c] && m[c := Without(m[c], dead)] == CollectedFrom(chains, done + {c}, dead)
  {
    hide Without;
  }

  /** Selecting commutes with removing the retracted clauses. */
  lemma SelectWithout(blocks: Blocks, all: seq<Ptr>, time: nat, pattern: Pattern)
    requires forall b :: b in all ==> b in blocks
    ensures Without(Select(blocks, all, pattern), Retracted(blocks, time)) ==
            Select(Kept(blocks, all, time), Without(all, Retracted(blocks, time)), pattern)
  {
    var dead, kept := Retracted(blocks, time), Kept(blocks, all, time);
    var p, q := b => b in blocks && Matches(pattern, blocks[b].key), b => b in kept && Matches(pattern, kept[b].key);
    var live := b => b !in dead;
    KeptIs(blocks, all, time);
    WithoutFilter(Filter(all, p), dead);
    WithoutFilter(all, dead);
    hide Filter, Without, Retracted, Kept;
    var both := b => p(b) && live(b);
    FilterFilter(all, p, live, both);
    FilterFilter(all, live, q, both);
  }

  lemma KeptIs(blocks: Blocks, all: seq<Ptr>, time: nat)
    requires forall b :: b in all ==> b in blocks
    ensures forall b :: b in all ==> (b in Kept(blocks, all, time) <==> b !in Retracted(blocks, time))
    ensures forall b :: b in Kept(blocks, all, time) ==> b in blocks && Kept(blocks, all, time)[b] == blocks[b]
  {
  }

  lemma IndexCollected(chains: Contents, patterns: Patterns, blocks: Blocks, all: seq<Ptr>, done: set<ChainRef>, time: nat)
    requires IndexOk(chains, patterns, blocks, all) && (forall b :: b in all ==> b in blocks) && forall c :: c in patterns ==> c in done
    ensures IndexOk(CollectedFrom(chains, done, Retracted(blocks, time)), patterns, Kept(blocks, all, time),
                    Without(all, Retracted(blocks, time)))
  {
    hide Select, Without, Kept, Retracted;
    forall c | c in chains
      ensures CollectedFrom(chains, done, Retracted(blocks, time))[c] ==
              Select(Kept(blocks, all, time), Without(all, Retracted(blocks, time)), patterns[c])
    {
      SelectWithout(blocks, all, time, patterns[c]);
    }
  }

  /** The chain of all clauses has all of them. */
  lemma AllIsAll(chains: Contents, patterns: Patterns, blocks: Blocks, all: seq<Ptr>, arity: nat, keys: set<Key>)
    requires IndexOk(chains, patterns, blocks, all) && FixedOk(patterns, arity, keys) && forall b :: b in all ==> b in blocks
    ensures AllChain in chains && chains[AllChain] == all
  {
    EveryOne(blocks, all);
  }

  lemma {:induction false} EveryOne(blocks: Blocks, all: seq<Ptr>)
    requires forall b :: b in all ==> b in blocks
    ensures Select(blocks, all, Any) == all
  {
    if all != [] {
      assert all[0] in all && forall b :: b in all[1..] ==> b in all;
      EveryOne(blocks, all[1..]);
    }
  }

  /** When only the chain of all clauses is left to collect, no other chain has a dead clause. */
  lemma OnlyAllLeft(chains: Contents, done: set<ChainRef>, dead: set<Ptr>, all: seq<Ptr>)
    requires AllChain in chains && AllChain !in done && forall c :: c in chains && c != AllChain ==> c in done
    ensures forall c, b :: c in chains && c != AllChain && b in CollectedFrom(chains, done, dead)[c] ==> b !in dead
    ensures CollectedFrom(chains, done, dead)[AllChain] == chains[AllChain]
  {
  }

  // ------------------------------------------------------------------
  // Walking along a chain by place
  // ------------------------------------------------------------------

  lemma {:induction false} NextAliveAt(blocks: Blocks, bs: seq<Ptr>, i: nat, t: nat)
    requires i <= |bs|
    ensures var j := FirstAlive(blocks, bs, i, t);
            i <= j <= |bs| && NextAlive(blocks, bs[i..], t) == if j < |bs| then bs[j] else NULL
    decreases |bs| - i
  {
    if i < |bs| {
      assert bs[i..][1..] == bs[i + 1..];
      if !(bs[i] in blocks && blocks[bs[i]].IsAlive(t)) { NextAliveAt(blocks, bs, i + 1, t); }
    }
  }

  lemma {:induction false} FromAt(bs: seq<Ptr>, i: nat)
    requires Distinct(bs) && i < |bs|
    ensures From(bs, bs[i]) == bs[i..]
  {
    if i > 0 { FromAt(bs[1..], i - 1); }
  }

  lemma NextOnAt(blocks: Blocks, bs: seq<Ptr>, i: nat, t: nat)
    requires Distinct(bs) && i < |bs|
    ensures var rest, j := From(bs, bs[i]), FirstAlive(blocks, bs, i + 1, t);
            rest != [] && NextAlive(blocks, rest[1..], t) == if j < |bs| then bs[j] else NULL
  {
    hide From, FirstAlive, NextAlive;
    FromAt(bs, i);
    assert bs[i..][1..] == bs[i + 1..];
    NextAliveAt(blocks, bs, i + 1, t);
  }

  /** Next, by places on the chain. */
  lemma NextAt(db: Db, call: nat, bs: seq<Ptr>, i: nat, j: nat)
    requires ClausesOk(db) && call in db.calls && bs == Chain(db, db.calls[call].pattern)
    requires i < |bs| && bs[i] == db.calls[call].next != NULL && j == FirstAlive(db.blocks, bs, i + 1, db.calls[call].time)
    ensures Enabled(db, Next(call)) && NULL !in bs
    ensures var c := db.calls[call];
            Step(db, Next(call)) ==
            db.(calls := db.calls[call := c.(next := if j < |bs| then bs[j] else NULL, delivered := c.delivered + [c.next])])
  {
    hide *;
    ChainDistinct(db, db.calls[call].pattern);
    NextOnAt(db.blocks, bs, i, db.calls[call].time);
    NextIs(db, call);
  }

  lemma ChainDistinct(db: Db, pattern: Pattern)
    requires ClausesOk(db)
    ensures Distinct(Chain(db, pattern)) && NULL !in Chain(db, pattern)
  {
    AllDistinct(db);
    hide ClausesOk, Select;
    SelectMembers(db.blocks, db.all, pattern);
  }

  lemma NextIs(db: Db, call: nat)
    requires call in db.calls && db.calls[call].next != NULL
    ensures Enabled(db, Next(call))
    ensures var c, rest := db.calls[call], From(Chain(db, db.calls[call].pattern), db.calls[call].next);
            Step(db, Next(call)) ==
            db.(calls := db.calls[call := c.(next := if rest == [] then NULL else NextAlive(db.blocks, rest[1..], c.time),
                                             delivered := c.delivered + [c.next])])
  {
  }

  /** Begin, by places on the chain. */
  lemma BeginAt(db: Db, call: nat, goal: Key, time: nat, bs: seq<Ptr>, i: nat)
    requires ClausesOk(db) && call !in db.calls && time <= db.stamp && bs == Chain(db, LookUp(db.keys, goal)) && i == FirstAlive(db.blocks, bs, 0, time)
    ensures Enabled(db, Begin(call, goal, time))
    ensures Step(db, Begin(call, goal, time)) ==
            if i < |bs| then db.(calls := db.calls[call := Call(LookUp(db.keys, goal), time, bs[i], [])]) else db
    ensures NULL !in bs
  {
    hide *;
    ChainDistinct(db, LookUp(db.keys, goal));
    assert bs[0..] == bs;
    NextAliveAt(db.blocks, bs, 0, time);
    BeginIs(db, call, goal, time);
  }

  lemma BeginIs(db: Db, call: nat, goal: Key, time: nat)
    requires call !in db.calls && time <= db.stamp
    ensures Enabled(db, Begin(call, goal, time))
    ensures var pattern := LookUp(db.keys, goal);
            var first := NextAlive(db.blocks, Chain(db, pattern), time);
            Step(db, Begin(call, goal, time)) == if first == NULL then db else db.(calls := db.calls[call := Call(pattern, time, first, [])])
  {
  }

  /** Begin and Next, by places on the chain. */
  lemma BeginNextAt(db: Db, call: nat, goal: Key, time: nat, bs: seq<Ptr>, i: nat, j: nat)
    requires ClausesOk(db) && call !in db.calls && time <= db.stamp && bs == Chain(db, LookUp(db.keys, goal)) && i == FirstAlive(db.blocks, bs, 0, time)
    requires i < |bs| && j == FirstAlive(db.blocks, bs, i + 1, time)
    ensures NULL !in bs && Enabled(db, Begin(call, goal, time)) && Enabled(Step(db, Begin(call, goal, time)), Next(call))
    ensures call in Step(db, Begin(call, goal, time)).calls && Step(db, Begin(call, goal, time)).calls[call].next == bs[i]
    ensures Step(Step(db, Begin(call, goal, time)), Next(call)) ==
            db.(calls := db.calls[call := Call(LookUp(db.keys, goal), time, if j < |bs| then bs[j] else NULL, [bs[i]])])
  {
    hide ClausesOk, Select, FirstAlive, LookUp, Step, Enabled;
    BeginAt(db, call, goal, time, bs, i);
    var db1 := Step(db, Begin(call, goal, time));
    assert ClausesOk(db1) by { CallsApart(db, db1.calls); }
    assert bs[i] in bs;
    NextAt(db1, call, bs, i, j);
    var c := Call(LookUp(db.keys, goal), time, if j < |bs| then bs[j] else NULL, [bs[i]]);
    assert [] + [bs[i]] == [bs[i]];
    assert db1.calls[call := c] == db.calls[call := c];
  }

  /** A table chain is in the table. */
  lemma ChainsListed(patterns: Patterns, entries: Slots, keys: set<Key>, nextChain: nat, done: set<ChainRef>)
    requires TableOk(patterns, entries, keys, nextChain) && forall e :: e in entries && e.Entry? ==> e.chain in done
    ensures forall c :: c in patterns && c.Hashed? ==> c in done
  {
    forall c | c in patterns && c.Hashed? ensures c in done {
      assert Entry(patterns[c].k, c) in entries && Entry(patterns[c].k, c).chain == c;
    }
  }
}
