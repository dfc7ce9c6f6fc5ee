/** The key under which a clause is indexed and looked up, and what it says about the indexed
    argument: whatever the variables of two arguments stand for, if they can be the same term then
    their keys are compatible.  There is one exception.
 */
module ClauseKeys {
  import opened DynamicHashTable
  import opened Database
  import opened ClauseChains
  import opened SubstitutedTerms
  import D = Dereference

  /** Cell tags; 0 is that of a variable. */
  const OBVAR := 1
  const CONS := 2
  const STRUCT := 3
  const QUANTIFIED := 4
  const NUMBER := 5
  const ATOM := 6
  const SUBST := 7

  const ANY := Key(0, 0)

  /** Addresses of atoms and integers as words. */
  datatype Words = Words(atom: string -> nat, number: int -> nat)

  /** The key k fits an argument that means v. */
  predicate Fits(ws: Words, k: Key, v: Value) {
    IsVar(k) ||
    match v
    case VAtom(a) => k == Key(ATOM, ws.atom(a))
    case VNum(n) => k == Key(NUMBER, ws.number(n))
    case VMeta(_) => false
    case VFree(_) => k == Key(OBVAR, 0)
    case VBound(_, _) => k == Key(OBVAR, 0)
    case VCons(_, _) => k == Key(CONS, 0)
    case VStruct(args) => |args| > 0 && args[0].VAtom? && k == Key(STRUCT, ws.atom(args[0].atom))
    case VQuant(q, _, _, _) => q.VAtom? && k == Key(QUANTIFIED, ws.atom(q.atom))
  }

  /** Keys that fit the same meaning are compatible. */
  lemma FittingKeys(ws: Words, k: Key, k': Key, v: Value)
    requires Fits(ws, k, v) && Fits(ws, k', v)
    ensures Compatible(k, k')
  {
  }

  /** The key fits t, under the substitutions s, whatever its variables stand for. */
  ghost predicate AlwaysFits(ws: Words, known: D.Distinctness, k: Key, s: seq<Block>, t: Term) {
    forall name, mu, d: nat :: D.Respects(name, known) ==> Fits(ws, k, Meaning(name, mu, s, t, Top, d))
  }

  /** It fits in no case. */
  ghost predicate NeverFits(ws: Words, known: D.Distinctness, k: Key, s: seq<Block>, t: Term) {
    forall name, mu, d: nat :: D.Respects(name, known) ==> !Fits(ws, k, Meaning(name, mu, s, t, Top, d))
  }

  /** The key of a list, structure or quantified term, also under substitutions. */
  function CompoundKey(ws: Words, t: Term): Key {
    match t
    case Cons(_, _) => Key(CONS, 0)
    case Struct(args) => if |args| > 0 && args[0].Atom? then Key(STRUCT, ws.atom(args[0].name)) else ANY
    case Quant(q, _, _, _, _) => if q.Atom? then Key(QUANTIFIED, ws.atom(q.name)) else ANY
    case _ => ANY
  }

  lemma CompoundMeans(ws: Words, name: Naming, mu: Binding, s: seq<Block>, t: Term, d: nat)
    ensures Fits(ws, CompoundKey(ws, t), Meaning(name, mu, s, t, Top, d))
  {
    var env := Push(InstBlocks(mu, s), Top);
    match t
    case Struct(args) =>
      if |args| > 0 && args[0].Atom? {
        var us := Insts(mu, args);
        assert us[0] == args[0] && Den(name, env, us[0], d) == VAtom(args[0].name);
        assert Den(name, env, Struct(us), d) == VStruct(Dens(name, env, us, d));
      }
    case Quant(q, _, _, _, _) =>
      if q.Atom? { assert Inst(mu, q) == q && Den(name, env, q, d) == VAtom(q.name); }
    case _ =>
  }

  lemma CompoundFits(ws: Words, known: D.Distinctness, s: seq<Block>, t: Term)
    ensures AlwaysFits(ws, known, CompoundKey(ws, t), s, t)
  {
    forall name, mu, d: nat ensures Fits(ws, CompoundKey(ws, t), Meaning(name, mu, s, t, Top, d)) {
      CompoundMeans(ws, name, mu, s, t, d);
    }
  }

  lemma SimpleFits(ws: Words, known: D.Distinctness, t: Term, k: Key)
    requires (t.Atom? && k == Key(ATOM, ws.atom(t.name))) || (t.Num? && k == Key(NUMBER, ws.number(t.n))) || (t.Var? && k == Key(OBVAR, 0))
    ensures AlwaysFits(ws, known, k, [], t)
  {
    forall name, mu, d: nat ensures Fits(ws, k, Meaning(name, mu, [], t, Top, d)) {
      assert Push(InstBlocks(mu, []), Top) == Top;
      if t.Var? { assert Look(name, Top, t.v, d) == VFree(name(t.v)); }
    }
  }

  lemma ConstantLost(ws: Words, known: D.Distinctness, c: Term, address: nat)
    requires c.Atom? || c.Num?
    ensures NeverFits(ws, known, Key(SUBST, address), [], c)
  {
  }

  /** Some naming respects what is known, so a key does not both always and never fit. */
  lemma NotBoth(ws: Words, known: D.Distinctness, k: Key, s: seq<Block>, t: Term)
    ensures !(AlwaysFits(ws, known, k, s, t) && NeverFits(ws, known, k, s, t))
  {
    var name: Naming := (v: ObVar) => 2 * v.id + if v.local then 1 else 0;
    var mu: Binding := (m: nat) => Meta(m);
    hide Meaning, Fits;
    assert forall v, w :: v != w ==> name(v) != name(w);
    assert D.Respects(name, known);
    assert Fits(ws, k, Meaning(name, mu, s, t, Top, 0)) || !Fits(ws, k, Meaning(name, mu, s, t, Top, 0));
  }

  /** Evaluating a substitution does not change what fits. */
  lemma FitsEvaluated(ws: Words, known: D.Distinctness, k: Key, s: seq<Block>, t: Term, s': seq<Block>, t': Term)
    requires D.SameMeaning(known, s, t, s', t')
    ensures AlwaysFits(ws, known, k, s', t') ==> AlwaysFits(ws, known, k, s, t)
    ensures NeverFits(ws, known, k, s', t') ==> NeverFits(ws, known, k, s, t)
  {
    hide Meaning, Fits, D.Respects;
    forall name, mu, d: nat | D.Respects(name, known)
      ensures Meaning(name, mu, s, t, Top, d) == Meaning(name, mu, s', t', Top, d)
    {
    }
  }

  /** Arguments that are not told apart: variables, object variables under a substitution, and
      compound terms whose functor or quantifier is not an atom. */
  predicate Unindexed(t: Term, substituted: bool) {
    match t
    case Meta(_) => true
    case Var(_) => substituted
    case Struct(args) => |args| == 0 || !args[0].Atom?
    case Quant(q, _, _, _, _) => !q.Atom?
    case _ => false
  }

  /** The key is that of a variable exactly when the argument, evaluated, is not told apart. */
  ghost predicate AsSpecific(known: D.Distinctness, k: Key, t: Term) {
    exists s, u :: D.SameMeaning(known, [], t, s, u) && !u.Sub? && (t.Sub? || (s == [] && u == t))
                   && (IsVar(k) <==> Unindexed(u, t.Sub?))
  }

  lemma SpecificEnough(known: D.Distinctness, k: Key, t: Term, s: seq<Block>, u: Term)
    requires D.SameMeaning(known, [], t, s, u) && !u.Sub? && (t.Sub? || (s == [] && u == t)) && (IsVar(k) <==> Unindexed(u, t.Sub?))
    ensures AsSpecific(known, k, t)
  {
  }

  /** The argument t is a substitution that evaluates to an atom or a number. */
  predicate Misindexed(known: D.Distinctness, same: D.Same, m: nat, t: Term) {
    t.Sub? && var u := D.Deref(known, same, m, [], t).t; u.Atom? || u.Num?
  }

  /** The key of the argument t, which is at the given address if it is a substitution. */
  function EntryKey(ws: Words, known: D.Distinctness, same: D.Same, m: nat, t: Term, address: nat): Key {
    match t
    case Atom(a) => Key(ATOM, ws.atom(a))
    case Num(n) => Key(NUMBER, ws.number(n))
    case Var(_) => Key(OBVAR, 0)
    case Sub(_, _) =>
      if Misindexed(known, same, m, t) then Key(SUBST, address) else CompoundKey(ws, D.Deref(known, same, m, [], t).t)
    case _ => CompoundKey(ws, t)
  }

  /** The key always fits, if the argument is not a substitution that evaluates to an atom or a number;
      otherwise it never does. */
  lemma EntryFits(ws: Words, known: D.Distinctness, same: D.Same, m: nat, t: Term, address: nat, lim: D.Limits)
    requires D.StateOk(lim, [], t) && D.SameIsEqual(same)
    ensures AlwaysFits(ws, known, EntryKey(ws, known, same, m, t, address), [], t) <==> !Misindexed(known, same, m, t)
    ensures NeverFits(ws, known, EntryKey(ws, known, same, m, t, address), [], t) <==> Misindexed(known, same, m, t)
    ensures EntryKey(ws, known, same, m, t, address) == Key(SUBST, address) <==> Misindexed(known, same, m, t)
    ensures AsSpecific(known, EntryKey(ws, known, same, m, t, address), t)
  {
    hide AlwaysFits, NeverFits, AsSpecific, D.SameMeaning, Fits, D.StateOk, D.Deref, D.SameIsEqual, D.Undecided;
    var k := EntryKey(ws, known, same, m, t, address);
    D.SameRefl(known, [], t);
    NotBoth(ws, known, k, [], t);
    match t {
      case Atom(_) =>
        SimpleFits(ws, known, t, k);
        SpecificEnough(known, k, t, [], t);
      case Num(_) =>
        SimpleFits(ws, known, t, k);
        SpecificEnough(known, k, t, [], t);
      case Var(_) =>
        SimpleFits(ws, known, t, k);
        SpecificEnough(known, k, t, [], t);
      case Sub(_, _) =>
        D.DerefIs(known, same, m, [], t, lim);
        var r := D.Deref(known, same, m, [], t);
        if r.t.Atom? || r.t.Num? {
          ConstantLost(ws, known, r.t, address);
        } else {
          CompoundFits(ws, known, r.s, r.t);
        }
        FitsEvaluated(ws, known, k, [], t, r.s, r.t);
        SpecificEnough(known, k, t, r.s, r.t);
      case _ =>
        CompoundFits(ws, known, [], t);
        SpecificEnough(known, k, t, [], t);
    }
  }

  /** makeEntry.  A substitution that evaluates to an atom or a number gets the tag of a
      substitution and its own address as key, which never fits: the cases for atoms and numbers
      look at the substitution again, not at what it evaluates to. */
  method MakeEntry(ws: Words, known: D.Distinctness, same: D.Same, m: nat, t: Term, address: nat, ghost lim: D.Limits)
    returns (k: Key)
    requires D.StateOk(lim, [], t) && D.SameIsEqual(same)
    ensures k == EntryKey(ws, known, same, m, t, address)
    ensures k == Key(SUBST, address) <==> Misindexed(known, same, m, t)
    ensures AlwaysFits(ws, known, k, [], t) <==> !Misindexed(known, same, m, t)
    ensures NeverFits(ws, known, k, [], t) <==> Misindexed(known, same, m, t)
    ensures AsSpecific(known, k, t) && (t.Meta? ==> k == Key(0, 0))
    ensures Misindexed(known, same, m, t) ==> exists c: Term :: (c.Atom? || c.Num?) && D.SameMeaning(known, [], t, [], c)
  {
    hide AlwaysFits, NeverFits, AsSpecific, D.SameMeaning, Fits, D.StateOk, D.SameIsEqual;
    EntryFits(ws, known, same, m, t, address, lim);
    match t {
      case Atom(a) => k := Key(ATOM, ws.atom(a));
      case Num(n) => k := Key(NUMBER, ws.number(n));
      case Var(_) => k := Key(OBVAR, 0);
      case Sub(_, _) =>
        var m', s, u := D.SubstitutionDereference(known, same, m, [], t, lim);
        assert u.Atom? || u.Num? ==> s == [] && D.SameMeaning(known, [], t, [], u);
        k := if u.Atom? || u.Num? then Key(SUBST, address) else CompoundKey(ws, u);
      case _ => k := CompoundKey(ws, t);
    }
  }

  /** Indexing loses no answer: when the keys of a call and of a clause fit their arguments, and the
      arguments can mean the same, the clause is on the chain the call scans. */
  lemma NoAnswerLost(ws: Words, known: D.Distinctness, db: Db, b: Ptr, goal: Key, call: Term, arg: Term,
                     name: Naming, mu: Binding, d: nat)
    requires ClausesOk(db) && b in db.all && b in db.blocks && D.Respects(name, known)
    requires AlwaysFits(ws, known, goal, [], call) && AlwaysFits(ws, known, db.blocks[b].key, [], arg)
    requires Meaning(name, mu, [], call, Top, d) == Meaning(name, mu, [], arg, Top, d)
    ensures b in Chain(db, LookUp(db.keys, goal))
  {
    hide ClausesOk, Meaning, Fits;
    FittingKeys(ws, goal, db.blocks[b].key, Meaning(name, mu, [], call, Top, d));
    LookUpView(db, goal, 0);
  }

  /** The argument, evaluated. */
  function Evaluated(known: D.Distinctness, same: D.Same, m: nat, t: Term): Term {
    if t.Sub? then D.Deref(known, same, m, [], t).t else t
  }

  /** The same constructor, and the same constant, functor or quantifier; these are atoms. */
  predicate SameTop(t: Term, u: Term) {
    match (t, u)
    case (Atom(a), Atom(b)) => a == b
    case (Num(i), Num(j)) => i == j
    case (Var(_), Var(_)) => true
    case (Cons(_, _), Cons(_, _)) => true
    case (Struct(us), Struct(vs)) => |us| > 0 && |vs| > 0 && us[0].Atom? && us[0] == vs[0]
    case (Quant(q, _, _, _, _), Quant(r, _, _, _, _)) => q.Atom? && q == r
    case _ => false
  }

  /** Different atoms and different integers are different words. */
  ghost predicate WordsDiffer(ws: Words) {
    && (forall a, b :: ws.atom(a) == ws.atom(b) ==> a == b)
    && forall i, j :: ws.number(i) == ws.number(j) ==> i == j
  }

  /** Indexing tells apart what it can: keys that are not those of a variable are compatible exactly when the
      arguments, evaluated, have the same constructor and the same constant, functor or quantifier.  The key of a
      substitution is compatible with no other than that of a substitution at the same address. */
  lemma KeysTellApart(ws: Words, known: D.Distinctness, same: D.Same, m: nat, t: Term, address: nat, m': nat, t': Term, address': nat)
    requires WordsDiffer(ws)
    ensures var k, k' := EntryKey(ws, known, same, m, t, address), EntryKey(ws, known, same, m', t', address');
            var lost, lost' := Misindexed(known, same, m, t), Misindexed(known, same, m', t');
            !IsVar(k) && !IsVar(k') ==>
              (Compatible(k, k') <==>
                 if lost || lost' then lost && lost' && address == address'
                 else SameTop(Evaluated(known, same, m, t), Evaluated(known, same, m', t')))
  {
    hide D.Deref;
  }

  /** A clause whose argument has another constructor, constant, functor or quantifier than that of the call is not on
      the chain the call scans. */
  lemma OthersNotTried(ws: Words, known: D.Distinctness, same: D.Same, m: nat, call: Term, address: nat, m': nat, arg: Term, address': nat,
                       db: Db, b: Ptr)
    requires WordsDiffer(ws) && b in db.blocks && db.blocks[b].key == EntryKey(ws, known, same, m', arg, address')
    requires !Misindexed(known, same, m, call) && !Misindexed(known, same, m', arg)
    requires !Unindexed(Evaluated(known, same, m, call), call.Sub?) && !Unindexed(Evaluated(known, same, m', arg), arg.Sub?)
    requires !SameTop(Evaluated(known, same, m, call), Evaluated(known, same, m', arg))
    requires !Evaluated(known, same, m, call).Sub? && !Evaluated(known, same, m', arg).Sub?
    ensures b !in Chain(db, LookUp(db.keys, EntryKey(ws, known, same, m, call, address)))
  {
    hide D.Deref, Select, LookUp;
    KeysTellApart(ws, known, same, m, call, address, m', arg, address');
    OtherKey(db, b, EntryKey(ws, known, same, m, call, address));
  }

  /** A chain looked up under the key of an atom or a number, or of a substitution, has no clause under another. */
  lemma OtherKey(db: Db, b: Ptr, goal: Key)
    requires b in db.blocks && !IsVar(goal) && !IsVar(db.blocks[b].key) && db.blocks[b].key != goal
    ensures b !in Chain(db, LookUp(db.keys, goal))
  {
    SelectedKey(db.blocks, db.all, LookUp(db.keys, goal), b);
  }

  /** The exception, in general: a substitution that evaluates to the constant c means the same as c, yet
      as the argument of a call it does not reach a clause with argument c, and as the argument of a clause
      it is not reached by a call with argument c. */
  lemma AnswersLost(ws: Words, known: D.Distinctness, same: D.Same, m: nat, t: Term, address: nat, lim: D.Limits, db: Db, b: Ptr)
    requires D.StateOk(lim, [], t) && D.SameIsEqual(same) && Misindexed(known, same, m, t) && b in db.blocks
    ensures var c, k := D.Deref(known, same, m, [], t).t, EntryKey(ws, known, same, m, t, address);
            var kc := EntryKey(ws, known, same, m, c, 0);
            && D.SameMeaning(known, [], t, [], c)
            && (db.blocks[b].key == kc ==> b !in Chain(db, LookUp(db.keys, k)))
            && (db.blocks[b].key == k ==> b !in Chain(db, LookUp(db.keys, kc)))
  {
    hide D.SameMeaning, D.StateOk, D.SameIsEqual, D.Undecided, D.Deref, Select, LookUp;
    D.DerefIs(known, same, m, [], t, lim);
    var c, k := D.Deref(known, same, m, [], t).t, EntryKey(ws, known, same, m, t, address);
    var kc := EntryKey(ws, known, same, m, c, 0);
    if db.blocks[b].key == kc { OtherKey(db, b, k); }
    if db.blocks[b].key == k { OtherKey(db, b, kc); }
  }

  /** [a/x]x is such a substitution: p([a/x]x) does not reach the clause p(a), and p(a) does not reach the
      clause p([a/x]x). */
  lemma AnswerLost(ws: Words, known: D.Distinctness, same: D.Same, m: nat, x: ObVar, a: string, address: nat, db: Db, b: Ptr)
    requires D.SameIsEqual(same) && b in db.blocks
    ensures var t := Sub([Block([x], [Atom(a)])], Var(x));
            var k, kc := EntryKey(ws, known, same, m, t, address), EntryKey(ws, known, same, m, Atom(a), 0);
            && D.SameMeaning(known, [], t, [], Atom(a))
            && (db.blocks[b].key == kc ==> b !in Chain(db, LookUp(db.keys, k)))
            && (db.blocks[b].key == k ==> b !in Chain(db, LookUp(db.keys, kc)))
  {
    hide D.SameMeaning, D.SameIsEqual, Select, LookUp, EntryKey;
    var t, lim := Sub([Block([x], [Atom(a)])], Var(x)), D.Limits(0, true, D.NoMetas, iset{x});
    EvaluatesToAtom(known, same, m, x, a);
    SubstitutedAtomOk(x, a, lim);
    AnswersLost(ws, known, same, m, t, address, lim, db, b);
  }

  lemma EvaluatesToAtom(known: D.Distinctness, same: D.Same, m: nat, x: ObVar, a: string)
    ensures var t := Sub([Block([x], [Atom(a)])], Var(x));
            Misindexed(known, same, m, t) && D.Deref(known, same, m, [], t).t == Atom(a)
  {
    var b := Block([x], [Atom(a)]);
    assert [b] + [] == [b] && [b][1..] == [];
    assert D.Evaluate(known, same, m, x, b, 0, -1) == D.Taken(0);
    assert D.Deref(known, same, m, [b], Var(x)) == D.Deref(known, same, m + 1, [], Atom(a));
  }

  lemma SubstitutedAtomOk(x: ObVar, a: string, lim: D.Limits)
    requires lim.free && x in lim.vars
    ensures D.StateOk(lim, [], Sub([Block([x], [Atom(a)])], Var(x)))
  {
    var b := Block([x], [Atom(a)]);
    assert [b][1..] == [] && [Atom(a)][1..] == [];
    assert D.Ins(lim.Under(), []) && D.BlocksOk(lim.Under(), []);
    assert D.Ins(lim.Under(), [Atom(a)]) && D.DomsOk(b);
  }

  lemma SelectedKey(blocks: Blocks, all: seq<Ptr>, pattern: Pattern, b: Ptr)
    ensures b in Select(blocks, all, pattern) ==> b in blocks && Matches(pattern, blocks[b].key)
  {
  }
}
