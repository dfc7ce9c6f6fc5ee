/** The clauses of a dynamic predicate as its callers see them: a sequence of clauses with
    creation and deletion stamps, changed by asserts and retracts while calls walk over it.

    The logical update view: a call sees the clauses that were there when it began, whatever
    is asserted or retracted meanwhile.
 */
module Database {
  import opened DynamicHashTable
  import opened ClauseChains

  /** What the clauses of a chain have in common. */
  datatype Pattern = Any | VarOnly | KeyOrVar(k: Key) | NoClause

  predicate IsVar(k: Key) { k.tag == 0 }

  predicate Matches(pattern: Pattern, k: Key) {
    match pattern
    case Any => true
    case VarOnly => IsVar(k)
    case KeyOrVar(k') => IsVar(k) || k == k'
    case NoClause => false
  }

  /** The clause with key k may unify with a call whose indexed argument has key call. */
  predicate Compatible(call: Key, k: Key) { IsVar(call) || IsVar(k) || call == k }

  // ------------------------------------------------------------------
  // Subsequences
  // ------------------------------------------------------------------

  ghost function Filter(bs: seq<Ptr>, p: Ptr -> bool): (r: seq<Ptr>)
    ensures forall b :: b in r <==> b in bs && p(b)
  {
    if bs == [] then [] else (if p(bs[0]) then [bs[0]] else []) + Filter(bs[1..], p)
  }

  lemma {:induction false} FilterConcat(a: seq<Ptr>, b: seq<Ptr>, p: Ptr -> bool)
    ensures Filter(a + b, p) == Filter(a, p) + Filter(b, p)
  {
    if a == [] {
      assert a + b == b;
    } else {
      assert (a + b)[1..] == a[1..] + b;
      FilterConcat(a[1..], b, p);
    }
  }

  lemma {:induction false} FilterSame(bs: seq<Ptr>, p: Ptr -> bool, q: Ptr -> bool)
    requires forall b :: b in bs ==> p(b) == q(b)
    ensures Filter(bs, p) == Filter(bs, q)
  {
    if bs != [] {
      assert bs[0] in bs && forall b :: b in bs[1..] ==> b in bs;
      FilterSame(bs[1..], p, q);
    }
  }

  lemma FilterOne(b: Ptr, p: Ptr -> bool)
    ensures Filter([b], p) == if p(b) then [b] else []
  {
    assert [b][1..] == [] && Filter([], p) == [];
  }

  lemma {:induction false} FilterNone(bs: seq<Ptr>, p: Ptr -> bool)
    requires forall b :: b in bs ==> !p(b)
    ensures Filter(bs, p) == []
  {
    if bs != [] {
      assert bs[0] in bs && forall b :: b in bs[1..] ==> b in bs;
      FilterNone(bs[1..], p);
    }
  }

  lemma {:induction false} FilterFilter(bs: seq<Ptr>, p: Ptr -> bool, q: Ptr -> bool, r: Ptr -> bool)
    requires forall b :: b in bs ==> (r(b) <==> p(b) && q(b))
    ensures Filter(Filter(bs, p), q) == Filter(bs, r)
  {
    if bs != [] {
      assert bs[0] in bs && forall b :: b in bs[1..] ==> b in bs;
      FilterFilter(bs[1..], p, q, r);
      FilterConcat(if p(bs[0]) then [bs[0]] else [], Filter(bs[1..], p), q);
    }
  }

  lemma {:induction false} FilterDistinct(bs: seq<Ptr>, p: Ptr -> bool)
    requires Distinct(bs)
    ensures Distinct(Filter(bs, p))
  {
    if bs != [] { FilterDistinct(bs[1..], p); }
  }

  lemma {:induction false} WithoutFilter(bs: seq<Ptr>, dead: set<Ptr>)
    ensures Without(bs, dead) == Filter(bs, b => b !in dead)
  {
    if bs != [] {
      var n, p := |bs| - 1, b => b !in dead;
      WithoutFilter(bs[..n], dead);
      assert Without(bs, dead) == Without(bs[..n], dead) + if bs[n] in dead then [] else [bs[n]];
      hide Filter, Without;
      assert bs == bs[..n] + [bs[n]];
      FilterConcat(bs[..n], [bs[n]], p);
      FilterOne(bs[n], p);
    }
  }

  /** The chain with the given pattern: a subsequence of all clauses. */
  ghost function Select(blocks: Blocks, all: seq<Ptr>, pattern: Pattern): seq<Ptr> {
    Filter(all, b => b in blocks && Matches(pattern, blocks[b].key))
  }

  /** The clauses of bs alive at time t. */
  ghost function Living(blocks: Blocks, bs: seq<Ptr>, t: nat): seq<Ptr> {
    Filter(bs, b => b in blocks && blocks[b].IsAlive(t))
  }

  /** The clauses a call with the given key has to try at time t. */
  ghost function View(blocks: Blocks, all: seq<Ptr>, call: Key, t: nat): seq<Ptr> {
    Filter(all, b => b in blocks && Compatible(call, blocks[b].key) && blocks[b].IsAlive(t))
  }

  /** bs from the element b on. */
  ghost function From(bs: seq<Ptr>, b: Ptr): (r: seq<Ptr>)
    ensures if b in bs then r != [] && r[0] == b else r == []
    ensures forall x :: x in r ==> x in bs
  {
    if bs == [] then [] else if bs[0] == b then bs else From(bs[1..], b)
  }

  lemma FromPrepend(bs: seq<Ptr>, x: Ptr, b: Ptr)
    requires x != b
    ensures From([x] + bs, b) == From(bs, b)
  {
    assert ([x] + bs)[1..] == bs;
  }

  lemma {:induction false} FromAppend(bs: seq<Ptr>, x: Ptr, b: Ptr)
    requires b in bs
    ensures From(bs + [x], b) == From(bs, b) + [x]
  {
    if bs[0] != b {
      assert (bs + [x])[1..] == bs[1..] + [x];
      FromAppend(bs[1..], x, b);
    }
  }

  /** nextAlive: the first clause of bs alive at time t, or NULL. */
  function NextAlive(blocks: Blocks, bs: seq<Ptr>, t: nat): (b: Ptr) {
    if bs == [] then NULL
    else if bs[0] in blocks && blocks[bs[0]].IsAlive(t) then bs[0]
    else NextAlive(blocks, bs[1..], t)
  }

  lemma {:induction false} NextAliveIs(blocks: Blocks, bs: seq<Ptr>, t: nat)
    requires NULL !in bs
    ensures var b := NextAlive(blocks, bs, t);
            if b == NULL then Living(blocks, bs, t) == []
            else b in bs && b in blocks && blocks[b].IsAlive(t) && Living(blocks, From(bs, b), t) == Living(blocks, bs, t)
  {
    if bs != [] && !(bs[0] in blocks && blocks[bs[0]].IsAlive(t)) {
      assert forall b :: b in bs[1..] ==> b in bs;
      NextAliveIs(blocks, bs[1..], t);
    }
  }

  /** Walking on from an element of a suffix is walking on from it in the whole. */
  lemma {:induction false} FromFrom(bs: seq<Ptr>, b: Ptr, x: Ptr)
    requires Distinct(bs) && b in bs && x in From(bs, b)[1..]
    ensures From(bs, x) == From(From(bs, b)[1..], x)
  {
    if bs[0] == b {
      assert x != b;
    } else {
      FromFrom(bs[1..], b, x);
      assert x in From(bs[1..], b);
    }
  }

  // ------------------------------------------------------------------
  // The state machine
  // ------------------------------------------------------------------

  /** A call in progress: it walks over the chain with the given pattern, next is the clause it
      will try next, delivered are those it has tried. */
  datatype Call = Call(pattern: Pattern, time: nat, next: Ptr, delivered: seq<Ptr>)

  /** keys are those of the hash table. */
  datatype Db = Db(all: seq<Ptr>, blocks: Blocks, keys: set<Key>, stamp: nat, dirty: bool, calls: map<nat, Call>)

  const EmptyDb := Db([], map[], {}, 1, false, map[])

  /** id names a new clause, a clause of the database, or a call.  A call begins with the present stamp or an
      earlier one. */
  datatype Event =
    | Assert(id: Ptr, key: Key, front: bool)
    | Retract(id: Ptr)
    | Begin(call: nat, goal: Key, time: nat)
    | Next(call: nat)
    | End(call: nat)

  /** Stamps stay below WORD32_MAX.  A clause that is retracted already may be retracted again. */
  predicate Enabled(db: Db, e: Event) {
    match e
    case Assert(id, _, _) => id != NULL && id !in db.blocks && db.stamp + 1 < NEVER
    case Retract(id) => id in db.blocks && db.stamp + 1 < NEVER
    case Begin(call, _, time) => call !in db.calls && time <= db.stamp
    case Next(call) => call in db.calls && db.calls[call].next != NULL
    case End(call) => call in db.calls
  }

  /** lookUpClauseChain */
  function LookUp(keys: set<Key>, goal: Key): Pattern {
    if IsVar(goal) then Any else if goal in keys then KeyOrVar(goal) else VarOnly
  }

  ghost function Chain(db: Db, pattern: Pattern): seq<Ptr> {
    Select(db.blocks, db.all, pattern)
  }

  /** Collect the retracted clauses. */
  ghost function Gc(db: Db): Db {
    db.(all := Without(db.all, Retracted(db.blocks, db.stamp)), blocks := Kept(db.blocks, db.all, db.stamp), dirty := false)
  }

  ghost function Step(db: Db, e: Event): Db
    requires Enabled(db, e)
  {
    match e
    case Assert(id, key, front) =>
      db.(all := WithAdded(db.all, id, front),
          blocks := db.blocks[id := CodeBlock(db.stamp + 1, NEVER, key)],
          keys := if IsVar(key) then db.keys else db.keys + {key},
          stamp := db.stamp + 1)
    case Retract(id) =>
      db.(blocks := db.blocks[id := db.blocks[id].(deleted := db.stamp + 1)], stamp := db.stamp + 1, dirty := true)
    case Begin(call, goal, time) =>
      var pattern := LookUp(db.keys, goal);
      var first := NextAlive(db.blocks, Chain(db, pattern), time);
      if first == NULL then db else db.(calls := db.calls[call := Call(pattern, time, first, [])])
    case Next(call) =>
      var c := db.calls[call];
      var rest := From(Chain(db, c.pattern), c.next);
      var next := if rest == [] then NULL else NextAlive(db.blocks, rest[1..], c.time);
      db.(calls := db.calls[call := c.(next := next, delivered := c.delivered + [c.next])])
    case End(call) =>
      var db' := db.(calls := db.calls - {call});
      if db'.calls == map[] && db'.dirty then Gc(db') else db'
  }

  // ------------------------------------------------------------------
  // What every step keeps
  // ------------------------------------------------------------------

  /** What the call has still to try. */
  ghost function Ahead(blocks: Blocks, all: seq<Ptr>, c: Call): seq<Ptr> {
    if c.next == NULL then [] else Living(blocks, From(Select(blocks, all, c.pattern), c.next), c.time)
  }

  ghost function Remaining(db: Db, c: Call): seq<Ptr> {
    Ahead(db.blocks, db.all, c)
  }

  /** The next clause of the call is on its chain, alive for it, and not freed. */
  ghost predicate CursorOk(blocks: Blocks, all: seq<Ptr>, c: Call) {
    c.next != NULL ==>
      c.next in Select(blocks, all, c.pattern) && c.next in blocks && blocks[c.next].IsAlive(c.time)
  }

  ghost predicate CallOk(db: Db, c: Call) {
    c.time <= db.stamp && CursorOk(db.blocks, db.all, c)
  }

  ghost predicate ClausesOk(db: Db) {
    && Distinct(db.all) && NULL !in db.all && db.stamp < NEVER
    && (forall b :: b in db.all <==> b in db.blocks)
    && forall b :: b in db.blocks ==>
         && db.blocks[b].created <= db.stamp && db.blocks[b].created < db.blocks[b].deleted
         && (db.blocks[b].deleted == NEVER || (db.blocks[b].deleted <= db.stamp && db.dirty))
         && (IsVar(db.blocks[b].key) || db.blocks[b].key in db.keys)
  }

  ghost predicate Inv(db: Db) {
    ClausesOk(db) && forall c :: c in db.calls ==> CallOk(db, db.calls[c])
  }

  /** The clauses call has delivered and those it has still to try. */
  ghost function Seen(db: Db, call: nat): seq<Ptr>
    requires call in db.calls
  {
    db.calls[call].delivered + Remaining(db, db.calls[call])
  }

  /** In db' the call c has delivered what it had delivered in db or more, and delivered and
      remaining clauses together are the same. */
  ghost predicate SameView(db: Db, c: Call, db': Db, c': Call) {
    c'.delivered + Remaining(db', c') == c.delivered + Remaining(db, c)
  }

  /** The clause id, retracted before c began, is ahead of c; it would be tried if it were
      retracted again. */
  ghost predicate Reappears(db: Db, id: Ptr, c: Call) {
    id in db.blocks && db.blocks[id].deleted <= c.time && c.next != NULL && id in From(Chain(db, c.pattern), c.next)
  }

  lemma LivingSame(blocks: Blocks, blocks': Blocks, bs: seq<Ptr>, t: nat)
    requires forall b :: b in bs ==> (b in blocks && blocks[b].IsAlive(t) <==> b in blocks' && blocks'[b].IsAlive(t))
    ensures Living(blocks, bs, t) == Living(blocks', bs, t)
  {
    FilterSame(bs, b => b in blocks && blocks[b].IsAlive(t), b => b in blocks' && blocks'[b].IsAlive(t));
  }

  lemma SelectSame(blocks: Blocks, blocks': Blocks, all: seq<Ptr>, pattern: Pattern)
    requires forall b :: b in all ==> b in blocks && b in blocks' && blocks[b].key == blocks'[b].key
    ensures Select(blocks, all, pattern) == Select(blocks', all, pattern)
  {
    FilterSame(all, b => b in blocks && Matches(pattern, blocks[b].key), b => b in blocks' && Matches(pattern, blocks'[b].key));
  }

  /** A new clause joins exactly the chains whose pattern it matches. */
  lemma SelectAdded(blocks: Blocks, all: seq<Ptr>, id: Ptr, block: CodeBlock, front: bool, pattern: Pattern)
    requires (forall b :: b in all ==> b in blocks) && id !in blocks
    ensures var chain := Select(blocks, all, pattern);
            Select(blocks[id := block], WithAdded(all, id, front), pattern) ==
            if Matches(pattern, block.key) then WithAdded(chain, id, front) else chain
  {
    hide Filter, Matches;
    var blocks' := blocks[id := block];
    var p := b => b in blocks' && Matches(pattern, blocks'[b].key);
    SelectSame(blocks, blocks', all, pattern);
    FilterAdded(all, id, front, p);
  }

  lemma FilterAdded(all: seq<Ptr>, id: Ptr, front: bool, p: Ptr -> bool)
    ensures Filter(WithAdded(all, id, front), p) == if p(id) then WithAdded(Filter(all, p), id, front) else Filter(all, p)
  {
    hide Filter;
    if front { FilterConcat([id], all, p); } else { FilterConcat(all, [id], p); }
    FilterOne(id, p);
  }

  lemma LivingConcat(blocks: Blocks, a: seq<Ptr>, b: seq<Ptr>, t: nat)
    ensures Living(blocks, a + b, t) == Living(blocks, a, t) + Living(blocks, b, t)
  {
    FilterConcat(a, b, x => x in blocks && blocks[x].IsAlive(t));
  }

  lemma LivingOne(blocks: Blocks, b: Ptr, t: nat)
    ensures Living(blocks, [b], t) == if b in blocks && blocks[b].IsAlive(t) then [b] else []
  {
    var p := x => x in blocks && blocks[x].IsAlive(t);
    FilterOne(b, p);
  }

  /** A clause too new for the call leaves what is ahead of it unchanged. */
  lemma AddedAhead(blocks: Blocks, bs: seq<Ptr>, id: Ptr, front: bool, next: Ptr, t: nat)
    requires next in bs && id !in bs && (id in blocks ==> !blocks[id].IsAlive(t))
    ensures next in WithAdded(bs, id, front)
    ensures Living(blocks, From(WithAdded(bs, id, front), next), t) == Living(blocks, From(bs, next), t)
  {
    if front {
      FromPrepend(bs, id, next);
    } else {
      FromAppend(bs, id, next);
      LivingConcat(blocks, From(bs, next), [id], t);
      LivingOne(blocks, id, t);
    }
  }

  lemma AssertClauses(db: Db, id: Ptr, key: Key, front: bool)
    requires ClausesOk(db) && Enabled(db, Assert(id, key, front))
    ensures ClausesOk(Step(db, Assert(id, key, front)))
  {
    AddedIs(db.all, id, front);
  }

  lemma AddedIs(bs: seq<Ptr>, b: Ptr, front: bool)
    requires Distinct(bs) && b !in bs
    ensures Distinct(WithAdded(bs, b, front)) && forall x :: x in WithAdded(bs, b, front) <==> x in bs || x == b
  {
  }

  lemma AssertAhead(blocks: Blocks, all: seq<Ptr>, id: Ptr, block: CodeBlock, front: bool, c: Call)
    requires (forall b :: b in all ==> b in blocks) && id !in blocks && !block.IsAlive(c.time)
    requires CursorOk(blocks, all, c)
    ensures CursorOk(blocks[id := block], WithAdded(all, id, front), c)
    ensures Ahead(blocks[id := block], WithAdded(all, id, front), c) == Ahead(blocks, all, c)
  {
    hide Select, Living, From, Filter, WithAdded;
    if c.next != NULL {
      var blocks', chain := blocks[id := block], Select(blocks, all, c.pattern);
      SelectMembers(blocks, all, c.pattern);
      SelectAdded(blocks, all, id, block, front, c.pattern);
      AddedAhead(blocks', chain, id, front, c.next, c.time);
      LivingSame(blocks, blocks', From(chain, c.next), c.time);
    }
  }

  lemma AllThere(db: Db)
    requires ClausesOk(db)
    ensures forall b :: b in db.all ==> b in db.blocks
  {
  }

  lemma AssertCall(db: Db, id: Ptr, key: Key, front: bool, c: Call)
    requires ClausesOk(db) && Enabled(db, Assert(id, key, front)) && CallOk(db, c)
    ensures var db' := Step(db, Assert(id, key, front)); CallOk(db', c) && SameView(db, c, db', c)
  {
    hide ClausesOk, CursorOk, Ahead, WithAdded;
    AllThere(db);
    AssertAhead(db.blocks, db.all, id, CodeBlock(db.stamp + 1, NEVER, key), front, c);
  }

  lemma RetractClauses(db: Db, id: Ptr)
    requires ClausesOk(db) && Enabled(db, Retract(id))
    ensures ClausesOk(Step(db, Retract(id)))
  {
  }

  lemma {:induction false} FilterMore(bs: seq<Ptr>, p: Ptr -> bool, q: Ptr -> bool, x: Ptr)
    requires forall b :: b in bs && p(b) ==> q(b)
    ensures |Filter(bs, q)| >= |Filter(bs, p)| + if x in bs && q(x) && !p(x) then 1 else 0
  {
    if bs != [] {
      assert bs[0] in bs && forall b :: b in bs[1..] ==> b in bs;
      FilterMore(bs[1..], p, q, x);
    }
  }

  /** Of bs one more is alive at t if the clause id is retracted again. */
  lemma RetractLiving(blocks: Blocks, bs: seq<Ptr>, id: Ptr, block: CodeBlock, t: nat)
    requires id in blocks && block.created == blocks[id].created < blocks[id].deleted && block.deleted > t
    ensures if blocks[id].deleted <= t && id in bs then |Living(blocks[id := block], bs, t)| > |Living(blocks, bs, t)|
            else Living(blocks[id := block], bs, t) == Living(blocks, bs, t)
  {
    var blocks' := blocks[id := block];
    var p, q := b => b in blocks && blocks[b].IsAlive(t), b => b in blocks' && blocks'[b].IsAlive(t);
    hide Filter;
    if blocks[id].deleted <= t && id in bs { FilterMore(bs, p, q, id); } else { FilterSame(bs, p, q); }
  }

  lemma RetractAhead(blocks: Blocks, all: seq<Ptr>, id: Ptr, block: CodeBlock, c: Call)
    requires (forall b :: b in all ==> b in blocks) && id in blocks && block.key == blocks[id].key
    requires block.created == blocks[id].created < blocks[id].deleted && block.deleted > c.time && CursorOk(blocks, all, c)
    ensures CursorOk(blocks[id := block], all, c)
    ensures var again := blocks[id].deleted <= c.time && c.next != NULL && id in From(Select(blocks, all, c.pattern), c.next);
            if again then |Ahead(blocks[id := block], all, c)| > |Ahead(blocks, all, c)|
            else Ahead(blocks[id := block], all, c) == Ahead(blocks, all, c)
  {
    hide Select, Living, From, Filter;
    SelectSame(blocks, blocks[id := block], all, c.pattern);
    RetractLiving(blocks, From(Select(blocks, all, c.pattern), c.next), id, block, c.time);
  }

  lemma RetractClause(db: Db, id: Ptr)
    requires ClausesOk(db) && Enabled(db, Retract(id))
    ensures db.blocks[id].created < db.blocks[id].deleted && forall b :: b in db.all ==> b in db.blocks
    ensures var db' := Step(db, Retract(id));
            && db'.blocks == db.blocks[id := db.blocks[id].(deleted := db.stamp + 1)]
            && db'.all == db.all && db'.stamp == db.stamp + 1 && db'.calls == db.calls
  {
  }

  /** A retract changes what a call has still to try exactly when the clause reappears. */
  lemma RetractCall(db: Db, id: Ptr, c: Call)
    requires ClausesOk(db) && Enabled(db, Retract(id)) && CallOk(db, c)
    ensures var db' := Step(db, Retract(id));
            && CallOk(db', c)
            && if Reappears(db, id, c) then |Remaining(db', c)| > |Remaining(db, c)| else Remaining(db', c) == Remaining(db, c)
  {
    hide ClausesOk, CursorOk, Ahead, From, Select, Step;
    RetractClause(db, id);
    RetractAhead(db.blocks, db.all, id, db.blocks[id].(deleted := db.stamp + 1), c);
  }

  /** The chain chosen for a goal misses no compatible clause, and has no other. */
  lemma LookUpView(db: Db, goal: Key, t: nat)
    requires ClausesOk(db)
    ensures Living(db.blocks, Chain(db, LookUp(db.keys, goal)), t) == View(db.blocks, db.all, goal, t)
    ensures Chain(db, LookUp(db.keys, goal)) == Filter(db.all, b => b in db.blocks && Compatible(goal, db.blocks[b].key))
  {
    var blocks, pattern := db.blocks, LookUp(db.keys, goal);
    FilterSame(db.all, b => b in blocks && Matches(pattern, blocks[b].key), b => b in blocks && Compatible(goal, blocks[b].key));
    FilterFilter(db.all, b => b in blocks && Matches(pattern, blocks[b].key), b => b in blocks && blocks[b].IsAlive(t),
                 b => b in blocks && Compatible(goal, blocks[b].key) && blocks[b].IsAlive(t));
  }

  lemma BeginCall(db: Db, call: nat, goal: Key, time: nat)
    requires ClausesOk(db) && Enabled(db, Begin(call, goal, time))
    ensures var db' := Step(db, Begin(call, goal, time));
            if call in db'.calls then CallOk(db', db'.calls[call]) && db'.calls[call].delivered == []
                                      && Remaining(db', db'.calls[call]) == View(db.blocks, db.all, goal, time)
            else View(db.blocks, db.all, goal, time) == []
  {
    hide Filter, From, Living, View;
    LookUpView(db, goal, time);
    var chain := Chain(db, LookUp(db.keys, goal));
    assert NULL !in chain by { SelectMembers(db.blocks, db.all, LookUp(db.keys, goal)); }
    NextAliveIs(db.blocks, chain, time);
  }

  lemma SelectMembers(blocks: Blocks, all: seq<Ptr>, pattern: Pattern)
    ensures forall b :: b in Select(blocks, all, pattern) ==> b in all
    ensures Distinct(all) ==> Distinct(Select(blocks, all, pattern))
  {
    if Distinct(all) { FilterDistinct(all, b => b in blocks && Matches(pattern, blocks[b].key)); }
  }

  lemma NextCall(db: Db, call: nat)
    requires ClausesOk(db) && Enabled(db, Next(call)) && CallOk(db, db.calls[call])
    ensures var db' := Step(db, Next(call)); CallOk(db', db'.calls[call]) && SameView(db, db.calls[call], db', db'.calls[call])
  {
    hide Filter, From, Living, Select;
    var c := db.calls[call];
    var chain := Chain(db, c.pattern);
    var rest := From(chain, c.next);
    SelectMembers(db.blocks, db.all, c.pattern);
    NextOnChain(db.blocks, chain, c.next, c.time);
  }

  lemma NextOnChain(blocks: Blocks, chain: seq<Ptr>, b: Ptr, t: nat)
    requires Distinct(chain) && NULL !in chain && b in chain && b in blocks && blocks[b].IsAlive(t)
    ensures var rest := From(chain, b);
            && rest != [] && var next := NextAlive(blocks, rest[1..], t);
            && (next != NULL ==> next in chain && next in blocks && blocks[next].IsAlive(t))
            && Living(blocks, rest, t) == [b] + if next == NULL then [] else Living(blocks, From(chain, next), t)
  {
    var rest := From(chain, b);
    var tail, next := rest[1..], NextAlive(blocks, rest[1..], t);
    assert forall x :: x in tail ==> x in rest;
    hide Living, From;
    NextAliveIs(blocks, tail, t);
    assert rest == [b] + tail;
    LivingConcat(blocks, [b], tail, t);
    LivingOne(blocks, b, t);
    if next != NULL { FromFrom(chain, b, next); }
  }

  lemma GcClauses(db: Db)
    requires ClausesOk(db)
    ensures ClausesOk(Gc(db))
  {
    WithoutDistinct(db.all, Retracted(db.blocks, db.stamp));
  }

  // ------------------------------------------------------------------
  // Runs
  // ------------------------------------------------------------------

  lemma OtherCalls(db: Db, calls: map<nat, Call>, c: Call)
    ensures ClausesOk(db.(calls := calls)) == ClausesOk(db) && CallOk(db.(calls := calls), c) == CallOk(db, c)
    ensures Remaining(db.(calls := calls), c) == Remaining(db, c)
  {
    hide Filter, From, Living, Select;
  }

  lemma StepKeepsInv(db: Db, e: Event)
    requires Inv(db) && Enabled(db, e)
    ensures Inv(Step(db, e))
  {
    hide ClausesOk, CallOk, Remaining;
    var db' := Step(db, e);
    match e
    case Assert(id, key, front) =>
      AssertClauses(db, id, key, front);
      forall c | c in db.calls ensures CallOk(db', db.calls[c]) { AssertCall(db, id, key, front, db.calls[c]); }
    case Retract(id) =>
      RetractClauses(db, id);
      forall c | c in db.calls ensures CallOk(db', db.calls[c]) { RetractCall(db, id, db.calls[c]); }
    case Begin(call, goal, time) =>
      forall c | c in db.calls ensures CallOk(db', db.calls[c]) { OtherCalls(db, db'.calls, db.calls[c]); }
      assert ClausesOk(db') by { CallsApart(db, db'.calls); }
      BeginCall(db, call, goal, time);
    case Next(call) =>
      forall c | c in db.calls ensures CallOk(db', db.calls[c]) { OtherCalls(db, db'.calls, db.calls[c]); }
      CallsApart(db, db'.calls);
      NextCall(db, call);
    case End(call) =>
      var calls := db.calls - {call};
      forall c | c in db.calls ensures CallOk(db.(calls := calls), db.calls[c]) { OtherCalls(db, calls, db.calls[c]); }
      CallsApart(db, calls);
      GcClauses(db.(calls := calls));
  }

  lemma CallsApart(db: Db, calls: map<nat, Call>)
    ensures ClausesOk(db.(calls := calls)) == ClausesOk(db)
  {
  }

  /** The event makes the call try a clause that was retracted before it began. */
  ghost predicate Disturbs(db: Db, e: Event, call: nat)
    requires call in db.calls
  {
    e.Retract? && Reappears(db, e.id, db.calls[call])
  }

  /** A call goes on seeing what it saw, until it ends, unless a retracted clause ahead of it is
      retracted again; then it sees more. */
  lemma StepKeepsView(db: Db, e: Event, call: nat)
    requires Inv(db) && Enabled(db, e) && call in db.calls && e != End(call)
    ensures var db' := Step(db, e);
            && call in db'.calls
            && if Disturbs(db, e, call) then |Seen(db', call)| > |Seen(db, call)| else Seen(db', call) == Seen(db, call)
  {
    hide ClausesOk, CallOk, Remaining, Reappears;
    var db', c := Step(db, e), db.calls[call];
    match e
    case Assert(id, key, front) => AssertCall(db, id, key, front, c);
    case Retract(id) => RetractCall(db, id, c);
    case Begin(call', _, _) => OtherCalls(db, db'.calls, c);
    case Next(call') =>
      if call' == call { NextCall(db, call); } else { OtherCalls(db, db'.calls, c); }
    case End(call') =>
      assert call in db.calls - {call'};
      OtherCalls(db, db.calls - {call'}, c);
  }

  ghost predicate Allowed(db: Db, es: seq<Event>)
    decreases |es|
  {
    es == [] || (Enabled(db, es[0]) && Allowed(Step(db, es[0]), es[1..]))
  }

  ghost function Run(db: Db, es: seq<Event>): Db
    requires Allowed(db, es)
    decreases |es|
  {
    if es == [] then db else Run(Step(db, es[0]), es[1..])
  }

  lemma {:induction false} RunKeepsInv(db: Db, es: seq<Event>)
    requires Inv(db) && Allowed(db, es)
    ensures Inv(Run(db, es))
    decreases |es|
  {
    if es != [] {
      hide Inv, Step, Enabled;
      StepKeepsInv(db, es[0]);
      RunKeepsInv(Step(db, es[0]), es[1..]);
    }
  }

  /** No event of the run makes the call try a clause that was retracted before it began. */
  ghost predicate Undisturbed(db: Db, es: seq<Event>, call: nat)
    requires Allowed(db, es)
    decreases |es|
  {
    es != [] && call in db.calls ==> !Disturbs(db, es[0], call) && Undisturbed(Step(db, es[0]), es[1..], call)
  }

  /** The run retracts no clause that is retracted already. */
  ghost predicate RetractsOnce(db: Db, es: seq<Event>)
    requires Allowed(db, es)
    decreases |es|
  {
    es != [] ==> (es[0].Retract? ==> db.blocks[es[0].id].deleted == NEVER) && RetractsOnce(Step(db, es[0]), es[1..])
  }

  /** Retracting each clause once disturbs no call. */
  lemma {:induction false} OnceUndisturbed(db: Db, es: seq<Event>, call: nat)
    requires Inv(db) && Allowed(db, es) && RetractsOnce(db, es)
    ensures Undisturbed(db, es, call)
    decreases |es|
  {
    if es != [] && call in db.calls {
      assert !Disturbs(db, es[0], call) by { NewlyRetracted(db, es[0], call); }
      hide Inv, Step, Enabled, Disturbs;
      StepKeepsInv(db, es[0]);
      OnceUndisturbed(Step(db, es[0]), es[1..], call);
    }
  }

  lemma NewlyRetracted(db: Db, e: Event, call: nat)
    requires Inv(db) && Enabled(db, e) && call in db.calls && (e.Retract? ==> db.blocks[e.id].deleted == NEVER)
    ensures !Disturbs(db, e, call)
  {
    hide From, Select, CursorOk;
    assert CallOk(db, db.calls[call]);
  }

  /** Over a run, the call sees what it saw if and only if it is undisturbed; else it sees more. */
  lemma {:induction false} RunKeepsView(db: Db, es: seq<Event>, call: nat)
    requires Inv(db) && Allowed(db, es) && call in db.calls && End(call) !in es
    ensures call in Run(db, es).calls
    ensures if Undisturbed(db, es, call) then Seen(Run(db, es), call) == Seen(db, call)
            else |Seen(Run(db, es), call)| > |Seen(db, call)|
    ensures |Seen(Run(db, es), call)| >= |Seen(db, call)|
    decreases |es|
  {
    if es != [] {
      hide Inv, Step, Enabled, Seen, Disturbs;
      StepKeepsInv(db, es[0]);
      StepKeepsView(db, es[0], call);
      RunKeepsView(Step(db, es[0]), es[1..], call);
    }
  }

  /** The logical update view.  A call that begins in a reachable database tries, in order and
      once each, exactly the compatible clauses alive at its stamp, if and only if no clause
      retracted before is retracted again while it is ahead of the call; whatever happens before
      the call ends, the clauses it has still to try have not been freed. */
  lemma LogicalUpdateView(es0: seq<Event>, call: nat, goal: Key, time: nat, es: seq<Event>)
    requires Allowed(EmptyDb, es0) && Enabled(Run(EmptyDb, es0), Begin(call, goal, time))
    requires Allowed(Step(Run(EmptyDb, es0), Begin(call, goal, time)), es) && End(call) !in es
    ensures var db := Run(EmptyDb, es0);
            var db1 := Step(db, Begin(call, goal, time));
            Viewed(db1, Run(db1, es), call, View(db.blocks, db.all, goal, time), Undisturbed(db1, es, call))
    ensures var db1 := Step(Run(EmptyDb, es0), Begin(call, goal, time)); RetractsOnce(db1, es) ==> Undisturbed(db1, es, call)
  {
    hide Inv, Step, Enabled, Run, Allowed, Remaining, View, Viewed, Undisturbed, RetractsOnce;
    var db := Run(EmptyDb, es0);
    EmptyInv();
    RunKeepsInv(EmptyDb, es0);
    OneView(db, call, goal, time, es);
    StepKeepsInv(db, Begin(call, goal, time));
    if RetractsOnce(Step(db, Begin(call, goal, time)), es) { OnceUndisturbed(Step(db, Begin(call, goal, time)), es, call); }
  }

  /** The call begins in db1 if it has something to try; in db' it has tried, and has still to try,
      the clauses of view exactly when it was undisturbed, and none of them has been freed. */
  ghost predicate Viewed(db1: Db, db': Db, call: nat, view: seq<Ptr>, undisturbed: bool) {
    && Distinct(view) && (call in db1.calls <==> view != [])
    && (call in db1.calls ==>
          && call in db'.calls && (db'.calls[call].delivered + Remaining(db', db'.calls[call]) == view <==> undisturbed)
          && (undisturbed ==> (db'.calls[call].next == NULL <==> db'.calls[call].delivered == view))
          && forall b :: b in Remaining(db', db'.calls[call]) ==> b in db'.blocks)
  }

  lemma ViewDistinct(blocks: Blocks, all: seq<Ptr>, goal: Key, t: nat)
    requires Distinct(all)
    ensures Distinct(View(blocks, all, goal, t))
  {
    FilterDistinct(all, b => b in blocks && Compatible(goal, blocks[b].key) && blocks[b].IsAlive(t));
  }

  lemma AheadNotFreed(db: Db, c: Call)
    requires ClausesOk(db) && CallOk(db, c)
    ensures forall b :: b in Remaining(db, c) ==> b in db.blocks
    ensures c.next == NULL <==> Remaining(db, c) == []
  {
    if c.next != NULL {
      AllDistinct(db);
      hide ClausesOk, Filter, From, Select;
      SelectMembers(db.blocks, db.all, c.pattern);
      NextOnChain(db.blocks, Chain(db, c.pattern), c.next, c.time);
    }
  }

  lemma OneView(db: Db, call: nat, goal: Key, time: nat, es: seq<Event>)
    requires Inv(db) && Enabled(db, Begin(call, goal, time))
    requires Allowed(Step(db, Begin(call, goal, time)), es) && End(call) !in es
    ensures var db1 := Step(db, Begin(call, goal, time));
            Viewed(db1, Run(db1, es), call, View(db.blocks, db.all, goal, time), Undisturbed(db1, es, call))
  {
    hide ClausesOk, CallOk, Run, Allowed, Remaining, View, Filter, From, Living, Select, NextAlive, Undisturbed;
    var db1 := Step(db, Begin(call, goal, time));
    assert Distinct(db.all) by { AllDistinct(db); }
    ViewDistinct(db.blocks, db.all, goal, time);
    BeginCall(db, call, goal, time);
    StepKeepsInv(db, Begin(call, goal, time));
    if call in db1.calls {
      AheadNotFreed(db1, db1.calls[call]);
      BeginNext(db, call, goal, time);
      RunKeepsInv(db1, es);
      RunKeepsView(db1, es, call);
      assert Seen(db1, call) == View(db.blocks, db.all, goal, time);
      assert CallOk(Run(db1, es), Run(db1, es).calls[call]);
      AheadNotFreed(Run(db1, es), Run(db1, es).calls[call]);
    }
  }

  lemma AllDistinct(db: Db)
    requires ClausesOk(db)
    ensures Distinct(db.all) && NULL !in db.all
  {
  }

  lemma BeginNext(db: Db, call: nat, goal: Key, time: nat)
    requires Enabled(db, Begin(call, goal, time)) && call in Step(db, Begin(call, goal, time)).calls
    ensures Step(db, Begin(call, goal, time)).calls[call].next != NULL
  {
  }

  lemma EmptyInv()
    ensures Inv(EmptyDb)
  {
  }

  // ------------------------------------------------------------------
  // Reclamation
  // ------------------------------------------------------------------

  /** Collecting the retracted clauses leaves nothing retracted, and changes no view from now on. */
  lemma GcKeepsViews(db: Db, goal: Key, t: nat)
    requires ClausesOk(db) && t >= db.stamp
    ensures View(Gc(db).blocks, Gc(db).all, goal, t) == View(db.blocks, db.all, goal, t)
    ensures forall b :: b in Gc(db).blocks <==> b in db.blocks && db.blocks[b].deleted == NEVER
  {
    var dead, blocks, blocks' := Retracted(db.blocks, db.stamp), db.blocks, Gc(db).blocks;
    var before := b => b in blocks && Compatible(goal, blocks[b].key) && blocks[b].IsAlive(t);
    var now := b => b in blocks' && Compatible(goal, blocks'[b].key) && blocks'[b].IsAlive(t);
    hide ClausesOk;
    GcBlocks(db);
    WithoutFilter(db.all, dead);
    hide Filter, Without, Retracted, Kept;
    FilterFilter(db.all, b => b !in dead, now, before);
  }

  lemma GcBlocks(db: Db)
    requires ClausesOk(db)
    ensures forall b :: b in Gc(db).blocks ==> b in db.blocks && Gc(db).blocks[b] == db.blocks[b]
    ensures forall b :: b in Gc(db).blocks <==> b in db.blocks && db.blocks[b].deleted == NEVER
    ensures forall b :: b in db.all ==> b in db.blocks && (b in Retracted(db.blocks, db.stamp) <==> b !in Gc(db).blocks)
  {
  }

  /** A clause is freed only when it has been retracted and the last call ends; and then every
      retracted clause is. */
  lemma FreedWhenUnused(db: Db, e: Event, b: Ptr)
    requires Inv(db) && Enabled(db, e) && b in db.blocks
    ensures var db' := Step(db, e);
            b !in db'.blocks <==> e.End? && db'.calls == map[] && db.dirty && db.blocks[b].deleted != NEVER
  {
    if e.End? { GcBlocks(db.(calls := db.calls - {e.call})); }
  }

  /** What the calls with the given key and stamp see of a retract: nothing, or a clause that was
      retracted before they began reappears. */
  lemma RetractView(db: Db, id: Ptr, goal: Key, t: nat)
    requires ClausesOk(db) && Enabled(db, Retract(id)) && t <= db.stamp
    ensures var db', block := Step(db, Retract(id)), db.blocks[id];
            var before, now := View(db.blocks, db.all, goal, t), View(db'.blocks, db'.all, goal, t);
            if block.deleted <= t && Compatible(goal, block.key) then id !in before && id in now else now == before
  {
    var blocks, blocks' := db.blocks, Step(db, Retract(id)).blocks;
    var p := b => b in blocks && Compatible(goal, blocks[b].key) && blocks[b].IsAlive(t);
    var q := b => b in blocks' && Compatible(goal, blocks'[b].key) && blocks'[b].IsAlive(t);
    hide Filter;
    if !(blocks[id].deleted <= t && Compatible(goal, blocks[id].key)) { FilterSame(db.all, p, q); }
  }

  /** Retracting a clause keeps the views at all stamps up to now if and only if the clause has not
      been retracted before; psi_retract does not check. */
  lemma RetractOnce(db: Db, id: Ptr)
    requires ClausesOk(db) && Enabled(db, Retract(id))
    ensures var db' := Step(db, Retract(id));
            (forall goal, t: nat :: t <= db.stamp ==> View(db'.blocks, db'.all, goal, t) == View(db.blocks, db.all, goal, t))
            <==> db.blocks[id].deleted > db.stamp
  {
    hide View;
    if db.blocks[id].deleted > db.stamp {
      forall goal, t: nat | t <= db.stamp
        ensures var db' := Step(db, Retract(id)); View(db'.blocks, db'.all, goal, t) == View(db.blocks, db.all, goal, t)
      {
        RetractView(db, id, goal, t);
      }
    } else {
      RetractView(db, id, db.blocks[id].key, db.stamp);
    }
  }

  // ------------------------------------------------------------------
  // Calls with an earlier stamp
  // ------------------------------------------------------------------

  /** The event ends the last call, and a compatible clause that was alive at t is freed. */
  ghost predicate Loses(db: Db, e: Event, goal: Key, t: nat) {
    && e.End? && db.calls - {e.call} == map[] && db.dirty
    && exists b :: b in db.blocks && Compatible(goal, db.blocks[b].key) && db.blocks[b].created <= t < db.blocks[b].deleted != NEVER
  }

  /** A compatible clause that was retracted at t or before is retracted again. */
  ghost predicate Regains(db: Db, e: Event, goal: Key, t: nat) {
    e.Retract? && e.id in db.blocks && db.blocks[e.id].deleted <= t && Compatible(goal, db.blocks[e.id].key)
  }

  lemma AssertView(db: Db, id: Ptr, key: Key, front: bool, goal: Key, t: nat)
    requires ClausesOk(db) && Enabled(db, Assert(id, key, front)) && t <= db.stamp
    ensures var db' := Step(db, Assert(id, key, front)); View(db'.blocks, db'.all, goal, t) == View(db.blocks, db.all, goal, t)
  {
    AllThere(db);
    var blocks, blocks' := db.blocks, Step(db, Assert(id, key, front)).blocks;
    var p := b => b in blocks && Compatible(goal, blocks[b].key) && blocks[b].IsAlive(t);
    var q := b => b in blocks' && Compatible(goal, blocks'[b].key) && blocks'[b].IsAlive(t);
    hide Filter, ClausesOk, Compatible;
    FilterSame(db.all, p, q);
    FilterAdded(db.all, id, front, q);
  }

  lemma GcView(db: Db, goal: Key, t: nat)
    requires ClausesOk(db)
    ensures var before, now := View(db.blocks, db.all, goal, t), View(Gc(db).blocks, Gc(db).all, goal, t);
            if exists b :: b in db.blocks && Compatible(goal, db.blocks[b].key) && db.blocks[b].created <= t < db.blocks[b].deleted != NEVER
            then |now| < |before| else now == before
  {
    GcBlocks(db);
    AllListed(db);
    hide ClausesOk, Filter, Without, Retracted, Kept, Compatible;
    FewerBlocks(db.blocks, Gc(db).blocks, db.all, Retracted(db.blocks, db.stamp), goal, t);
  }

  lemma FewerBlocks(blocks: Blocks, blocks': Blocks, all: seq<Ptr>, dead: set<Ptr>, goal: Key, t: nat)
    requires forall b :: b in blocks <==> b in all
    requires forall b :: b in blocks' <==> b in blocks && blocks[b].deleted == NEVER
    requires forall b :: b in blocks' ==> blocks'[b] == blocks[b]
    requires forall b :: b in all ==> (b in dead <==> b !in blocks')
    ensures var before, now := View(blocks, all, goal, t), View(blocks', Without(all, dead), goal, t);
            if exists b :: b in blocks && Compatible(goal, blocks[b].key) && blocks[b].created <= t < blocks[b].deleted != NEVER
            then |now| < |before| else now == before
  {
    var before := b => b in blocks && Compatible(goal, blocks[b].key) && blocks[b].IsAlive(t);
    var now := b => b in blocks' && Compatible(goal, blocks'[b].key) && blocks'[b].IsAlive(t);
    var both := b => b !in dead && now(b);
    hide Filter, Without, Compatible;
    FilterLeft(all, dead, now, both);
    if b :| b in blocks && Compatible(goal, blocks[b].key) && blocks[b].created <= t < blocks[b].deleted != NEVER {
      FilterMore(all, both, before, b);
    } else {
      FilterSame(all, both, before);
    }
  }

  lemma AllListed(db: Db)
    requires ClausesOk(db)
    ensures forall b :: b in db.blocks <==> b in db.all
  {
  }

  lemma FilterLeft(all: seq<Ptr>, dead: set<Ptr>, now: Ptr -> bool, both: Ptr -> bool)
    requires forall b :: both(b) <==> b !in dead && now(b)
    ensures Filter(Without(all, dead), now) == Filter(all, both)
  {
    hide Filter, Without;
    WithoutFilter(all, dead);
    FilterFilter(all, b => b !in dead, now, both);
  }

  /** What a step changes for the calls with the given key and stamp, among them those that have still to begin. */
  lemma StepStampView(db: Db, e: Event, goal: Key, t: nat)
    requires ClausesOk(db) && Enabled(db, e) && t <= db.stamp
    ensures var db' := Step(db, e);
            var before, now := View(db.blocks, db.all, goal, t), View(db'.blocks, db'.all, goal, t);
            && (if Loses(db, e, goal, t) then |now| < |before| else !Regains(db, e, goal, t) ==> now == before)
            && (Regains(db, e, goal, t) ==> now != before)
    ensures db.stamp <= Step(db, e).stamp
  {
    hide View;
    match e
    case Assert(id, key, front) => AssertView(db, id, key, front, goal, t);
    case Retract(id) => RetractView(db, id, goal, t);
    case Begin(_, _, _) =>
    case Next(_) =>
    case End(call) =>
      CallsApart(db, db.calls - {call});
      GcView(db.(calls := db.calls - {call}), goal, t);
  }

  /** No step of the run changes the view of a call with the given key and stamp. */
  ghost predicate Steady(db: Db, es: seq<Event>, goal: Key, t: nat)
    requires Allowed(db, es)
    decreases |es|
  {
    es != [] ==> !Loses(db, es[0], goal, t) && !Regains(db, es[0], goal, t) && Steady(Step(db, es[0]), es[1..], goal, t)
  }

  /** A call that begins late, with a stamp taken before the run, has to try what it would have had to try then if
      no compatible clause alive then has been freed; when each clause is retracted once, only if. */
  lemma {:induction false} RunStampView(db: Db, es: seq<Event>, goal: Key, t: nat)
    requires Inv(db) && Allowed(db, es) && t <= db.stamp
    ensures db.stamp <= Run(db, es).stamp
    ensures var db' := Run(db, es);
            var before, now := View(db.blocks, db.all, goal, t), View(db'.blocks, db'.all, goal, t);
            && (Steady(db, es, goal, t) ==> now == before)
            && (RetractsOnce(db, es) ==> |now| <= |before| && (now == before <==> Steady(db, es, goal, t)))
    decreases |es|
  {
    if es != [] {
      if RetractsOnce(db, es) { NotRegained(db, es[0], goal, t); }
      hide Inv, Step, Enabled, View, Loses, Regains;
      StepKeepsInv(db, es[0]);
      InvIs(db);
      StepStampView(db, es[0], goal, t);
      RunStampView(Step(db, es[0]), es[1..], goal, t);
    }
  }

  lemma InvIs(db: Db)
    requires Inv(db)
    ensures ClausesOk(db)
  {
  }

  lemma NotRegained(db: Db, e: Event, goal: Key, t: nat)
    requires Inv(db) && t <= db.stamp && (e.Retract? && e.id in db.blocks ==> db.blocks[e.id].deleted == NEVER)
    ensures !Regains(db, e, goal, t)
  {
  }

  /** The logical update view for a stamp taken earlier.  When each clause is retracted once, a call that begins
      after the run es1 with the stamp from before it tries, in order and once each, the compatible clauses alive
      before the run, if and only if the run has freed none of them. */
  lemma StampedView(es0: seq<Event>, es1: seq<Event>, call: nat, goal: Key, es: seq<Event>)
    requires Allowed(EmptyDb, es0) && Allowed(Run(EmptyDb, es0), es1) && RetractsOnce(Run(EmptyDb, es0), es1)
    requires var db0 := Run(EmptyDb, es0);
             var db := Run(db0, es1);
             && Enabled(db, Begin(call, goal, db0.stamp)) && Allowed(Step(db, Begin(call, goal, db0.stamp)), es)
             && RetractsOnce(Step(db, Begin(call, goal, db0.stamp)), es) && End(call) !in es
    ensures var db0 := Run(EmptyDb, es0);
            var db := Run(db0, es1);
            var db1 := Step(db, Begin(call, goal, db0.stamp));
            var view, late := View(db0.blocks, db0.all, goal, db0.stamp), View(db.blocks, db.all, goal, db0.stamp);
            && Viewed(db1, Run(db1, es), call, late, true)
            && (late == view <==> Steady(db0, es1, goal, db0.stamp))
  {
    hide Inv, Step, Enabled, Run, Allowed, View, Viewed, Undisturbed, RetractsOnce, Steady;
    var db0 := Run(EmptyDb, es0);
    EmptyInv();
    RunKeepsInv(EmptyDb, es0);
    RunKeepsInv(db0, es1);
    RunStampView(db0, es1, goal, db0.stamp);
    var db := Run(db0, es1);
    OneView(db, call, goal, db0.stamp, es);
    StepKeepsInv(db, Begin(call, goal, db0.stamp));
    OnceUndisturbed(Step(db, Begin(call, goal, db0.stamp)), es, call);
  }

  /** A clause retracted twice: a call that began between the retracts, when only clause 1 was there,
      tries clause 2 as well. */
  lemma RetractedTwice(k: Key)
    ensures var es := [Assert(1, k, false), Assert(2, k, false), Retract(2)];
            && Allowed(EmptyDb, es) && Enabled(Run(EmptyDb, es), Begin(0, k, Run(EmptyDb, es).stamp))
            && var db := Run(EmptyDb, es);
               var db1 := Step(db, Begin(0, k, db.stamp));
            && View(db.blocks, db.all, k, db.stamp) == [1]
            && 0 in db1.calls && Seen(db1, 0) == [1]
            && Enabled(db1, Retract(2)) && 0 in Step(db1, Retract(2)).calls && Seen(Step(db1, Retract(2)), 0) == [1, 2]
  {
    var es := [Assert(1, k, false), Assert(2, k, false), Retract(2)];
    TwoAsserted(k);
    RunThree(EmptyDb, es[0], es[1], es[2]);
    var db := Run(EmptyDb, es);
    hide Run, Allowed, Filter, From, Step, Enabled;
    FilterTwo(b => b in db.blocks && Compatible(k, db.blocks[b].key) && db.blocks[b].IsAlive(4));
    SeenTwice(db, k);
    BeginEnabled(db, k);
  }

  lemma BeginEnabled(db: Db, k: Key)
    requires db.calls == map[]
    ensures Enabled(db, Begin(0, k, db.stamp))
  {
  }

  lemma TwoAsserted(k: Key)
    ensures Enabled(EmptyDb, Assert(1, k, false))
    ensures var d1 := Step(EmptyDb, Assert(1, k, false));
            && Enabled(d1, Assert(2, k, false))
            && var d2 := Step(d1, Assert(2, k, false));
            && Enabled(d2, Retract(2))
            && var db := Step(d2, Retract(2));
            && db.all == [1, 2] && db.stamp == 4 && db.calls == map[] && (!IsVar(k) ==> k in db.keys)
            && db.blocks.Keys == {1, 2} && db.blocks[1] == CodeBlock(2, NEVER, k) && db.blocks[2] == CodeBlock(3, 4, k)
  {
  }

  /** A clause freed before a call with an earlier stamp begins: the call does not try it. */
  lemma FreedBefore(k: Key)
    ensures var es := [Begin(0, k, 2), Retract(1), End(0)];
            && Allowed(EmptyDb, [Assert(1, k, false)])
            && var db0 := Run(EmptyDb, [Assert(1, k, false)]);
            && Allowed(db0, es) && db0.stamp == 2 && View(db0.blocks, db0.all, k, 2) == [1]
            && Enabled(Run(db0, es), Begin(0, k, 2)) && View(Run(db0, es).blocks, Run(db0, es).all, k, 2) == []
  {
    var a, es := Assert(1, k, false), [Begin(0, k, 2), Retract(1), End(0)];
    assert [a] + [] == [a];
    RunOne(EmptyDb, a, []);
    var db0 := Step(EmptyDb, a);
    assert db0.all == [1] && db0.blocks.Keys == {1} && db0.blocks[1] == CodeBlock(2, NEVER, k) && db0.calls == map[] && db0.stamp == 2;
    hide Run, Allowed, Filter, From;
    FilterOne(1, b => b in db0.blocks && Compatible(k, db0.blocks[b].key) && db0.blocks[b].IsAlive(2));
    FreedOne(db0, k);
    RunThree(db0, es[0], es[1], es[2]);
  }

  lemma FreedOne(db0: Db, k: Key)
    requires db0.all == [1] && db0.blocks.Keys == {1} && db0.blocks[1] == CodeBlock(2, NEVER, k) && db0.calls == map[] && db0.stamp == 2
    requires !IsVar(k) ==> k in db0.keys
    ensures Enabled(db0, Begin(0, k, 2)) && Enabled(Step(db0, Begin(0, k, 2)), Retract(1))
    ensures Enabled(Step(Step(db0, Begin(0, k, 2)), Retract(1)), End(0))
    ensures var db := Step(Step(Step(db0, Begin(0, k, 2)), Retract(1)), End(0));
            View(db.blocks, db.all, k, 2) == [] && db.calls == map[] && db.stamp >= 2
  {
    var pattern := LookUp(db0.keys, k);
    assert Chain(db0, pattern) == [1] by { FilterOne(1, b => b in db0.blocks && Matches(pattern, db0.blocks[b].key)); }
    hide Filter, From, Select;
    assert NextAlive(db0.blocks, [1], 2) == 1;
    var d1 := Step(db0, Begin(0, k, 2));
    var d2 := Step(d1, Retract(1));
    assert d1.calls.Keys == {0} && d2.calls - {0} == map[] && d2.dirty;
    assert 1 in Retracted(d2.blocks, d2.stamp);
    assert Without([1], Retracted(d2.blocks, d2.stamp)) == [] by { assert [1][..0] == []; }
    assert Filter([], b => false) == [];
    NoView(Step(d2, End(0)), k);
  }

  lemma NoView(db: Db, k: Key)
    requires db.all == []
    ensures View(db.blocks, db.all, k, 2) == []
  {
  }

  lemma RunOne(db: Db, e: Event, es: seq<Event>)
    requires Enabled(db, e)
    ensures Allowed(db, [e] + es) <==> Allowed(Step(db, e), es)
    ensures Allowed(Step(db, e), es) ==> Run(db, [e] + es) == Run(Step(db, e), es)
  {
    hide Enabled, Step;
    assert ([e] + es)[1..] == es;
  }

  lemma RunThree(db: Db, a: Event, b: Event, c: Event)
    requires Enabled(db, a) && Enabled(Step(db, a), b) && Enabled(Step(Step(db, a), b), c)
    ensures Allowed(db, [a, b, c]) && Run(db, [a, b, c]) == Step(Step(Step(db, a), b), c)
  {
    hide Enabled, Step;
    var bc: seq<Event> := [b] + [c];
    RunOne(Step(Step(db, a), b), c, []);
    assert [c] + [] == [c];
    RunOne(Step(db, a), b, [c]);
    RunOne(db, a, bc);
    assert [a] + bc == [a, b, c];
  }

  lemma FilterTwo(p: Ptr -> bool)
    ensures Filter([1, 2], p) == (if p(1) then [1] else []) + (if p(2) then [2] else [])
  {
    var one: seq<Ptr>, two: seq<Ptr> := [1], [2];
    assert one + two == [1, 2];
    FilterConcat([1], [2], p);
    FilterOne(1, p);
    FilterOne(2, p);
  }

  lemma SeenTwice(db: Db, k: Key)
    requires db.all == [1, 2] && db.blocks.Keys == {1, 2} && db.blocks[1] == CodeBlock(2, NEVER, k) && db.blocks[2] == CodeBlock(3, 4, k)
    requires db.stamp == 4 && db.calls == map[] && (!IsVar(k) ==> k in db.keys)
    ensures var db1 := Step(db, Begin(0, k, db.stamp));
            && 0 in db1.calls && Seen(db1, 0) == [1]
            && Enabled(db1, Retract(2)) && 0 in Step(db1, Retract(2)).calls && Seen(Step(db1, Retract(2)), 0) == [1, 2]
  {
    var pattern := LookUp(db.keys, k);
    var db1 := Step(db, Begin(0, k, db.stamp));
    hide Filter, From, Gc, Select, WithAdded;
    ChainTwo(db, pattern, k);
    assert NextAlive(db.blocks, [1, 2], 4) == 1;
    assert db1 == db.(calls := map[0 := Call(pattern, 4, 1, [])]);
    hide NextAlive, Step, LookUp;
    AheadTwo(db.blocks, pattern, k);
    RetractClauseIs(db1, 2);
    var blocks' := db.blocks[2 := db.blocks[2].(deleted := 5)];
    assert Step(db1, Retract(2)).blocks == blocks' && blocks'.Keys == {1, 2};
    AheadTwo(blocks', pattern, k);
  }

  lemma RetractClauseIs(db: Db, id: Ptr)
    requires id in db.blocks && db.stamp + 1 < NEVER
    ensures Enabled(db, Retract(id))
    ensures Step(db, Retract(id)) == db.(blocks := db.blocks[id := db.blocks[id].(deleted := db.stamp + 1)], stamp := db.stamp + 1, dirty := true)
  {
  }

  lemma AheadTwo(blocks: Blocks, pattern: Pattern, k: Key)
    requires blocks.Keys == {1, 2} && blocks[1] == CodeBlock(2, NEVER, k) && blocks[2].created == 3 && blocks[2].key == k && Matches(pattern, k)
    ensures Ahead(blocks, [1, 2], Call(pattern, 4, 1, [])) == if blocks[2].deleted > 4 then [1, 2] else [1]
  {
    hide Filter, From;
    var all: seq<Ptr> := [1, 2];
    FilterTwo(b => b in blocks && Matches(pattern, blocks[b].key));
    assert Select(blocks, all, pattern) == all;
    FromFirst();
    FilterTwo(b => b in blocks && blocks[b].IsAlive(4));
    assert Living(blocks, all, 4) == if blocks[2].deleted > 4 then [1, 2] else [1];
  }

  lemma FromFirst()
    ensures From([1, 2], 1) == [1, 2]
  {
  }

  lemma ChainTwo(db: Db, pattern: Pattern, k: Key)
    requires db.all == [1, 2] && 1 in db.blocks && 2 in db.blocks && db.blocks[1].key == db.blocks[2].key == k && Matches(pattern, k)
    ensures Chain(db, pattern) == [1, 2]
  {
    FilterTwo(b => b in db.blocks && Matches(pattern, db.blocks[b].key));
  }
}
