/** When == leaves two terms undecided: the comparison has come to a variable that is left under a
    substitution.  On terms without quantifiers and substitutions it never does, and decides whether
    they are the same term.
 */
module Settled {
  import opened SubstitutedTerms
  import opened Dereference
  import opened Verdicts

  // ------------------------------------------------------------------
  // How the comparison goes on
  // ------------------------------------------------------------------

  datatype Pair = Pair(p: PrologValue, q: PrologValue)

  /** p is what dereferencing makes of p0 at some moment. */
  ghost predicate DereferencesTo(known: Distinctness, same: Same, p0: PrologValue, p: PrologValue) {
    exists m: nat :: var r := Deref(known, same, m, p0.sub, p0.term); p == PrologValue(r.s, r.t)
  }

  /** p0 and q0 are at the same place in p and q: heads or tails of lists, arguments of structures, quantifiers,
      types of bound variables, or bodies with the same constants for the bound variables. */
  ghost predicate Parts(p: PrologValue, q: PrologValue, p0: PrologValue, q0: PrologValue) {
    match (p.term, q.term)
    case (Cons(a, b), Cons(c, d)) =>
      (p0, q0) == (p.(term := a), q.(term := c)) || (p0, q0) == (p.(term := b), q.(term := d))
    case (Struct(us), Struct(vs)) => ArgsAt(p.sub, us, q.sub, vs, p0, q0)
    case (Quant(a, _, _, us, _), Quant(b, _, _, vs, _)) =>
      || (p0, q0) == (p.(term := a), q.(term := b)) || ArgsAt(p.sub, us, q.sub, vs, p0, q0)
      || exists n :: p0 == BodyOf(p, n) && q0 == BodyOf(q, n)
    case _ => false
  }

  ghost predicate ArgsAt(s: seq<Block>, us: seq<Term>, s': seq<Block>, vs: seq<Term>, p0: PrologValue, q0: PrologValue) {
    exists i :: 0 <= i < |us| && i < |vs| && p0 == PrologValue(s, us[i]) && q0 == PrologValue(s', vs[i])
  }

  ghost predicate GoesOn(known: Distinctness, same: Same, a: Pair, b: Pair) {
    exists p0, q0 :: Parts(a.p, a.q, p0, q0) && DereferencesTo(known, same, p0, b.p) && DereferencesTo(known, same, q0, b.q)
  }

  /** A variable is left under a substitution: the same meta-variable, two object variables, or an object variable
      and a term of another kind. */
  predicate LeftUnder(p: PrologValue, q: PrologValue) {
    match (p.term, q.term)
    case (Meta(m), Meta(n)) => m == n && (p.sub != [] || q.sub != [])
    case (Var(_), Var(_)) => p.sub != [] || q.sub != []
    case (Var(_), _) => p.sub != []
    case (_, Var(_)) => q.sub != []
    case _ => false
  }

  /** The comparison of the first pair goes on, part by part, to a variable left under a substitution. */
  ghost predicate Leads(known: Distinctness, same: Same, path: seq<Pair>) {
    && path != [] && LeftUnder(path[|path| - 1].p, path[|path| - 1].q)
    && forall i :: 0 <= i < |path| - 1 ==> GoesOn(known, same, path[i], path[i + 1])
  }

  /** The parts p0 and q0 lead there, once dereferenced. */
  ghost predicate PartsLead(known: Distinctness, same: Same, p0: PrologValue, q0: PrologValue, path: seq<Pair>) {
    Leads(known, same, path) && DereferencesTo(known, same, p0, path[0].p) && DereferencesTo(known, same, q0, path[0].q)
  }

  /** p and q lead there. */
  ghost predicate LeadsFrom(known: Distinctness, same: Same, p: PrologValue, q: PrologValue, path: seq<Pair>) {
    Leads(known, same, path) && path[0] == Pair(p, q)
  }

  lemma Longer(known: Distinctness, same: Same, p: PrologValue, q: PrologValue, p0: PrologValue, q0: PrologValue, path: seq<Pair>)
    requires Parts(p, q, p0, q0) && PartsLead(known, same, p0, q0, path)
    ensures LeadsFrom(known, same, p, q, [Pair(p, q)] + path)
  {
    hide Parts, DereferencesTo, LeftUnder;
    var longer := [Pair(p, q)] + path;
    assert GoesOn(known, same, Pair(p, q), path[0]);
    forall i | 0 <= i < |longer| - 1 ensures GoesOn(known, same, longer[i], longer[i + 1]) {
      if i > 0 { assert longer[i] == path[i - 1] && longer[i + 1] == path[i]; }
    }
  }

  lemma LeadsHere(known: Distinctness, same: Same, p: PrologValue, q: PrologValue)
    requires LeftUnder(p, q)
    ensures LeadsFrom(known, same, p, q, [Pair(p, q)])
  {
  }

  lemma DereferencedAt(known: Distinctness, same: Same, m: nat, p0: PrologValue, p: PrologValue)
    requires var r := Deref(known, same, m, p0.sub, p0.term); p == PrologValue(r.s, r.t)
    ensures DereferencesTo(known, same, p0, p)
  {
  }

  // ------------------------------------------------------------------
  // Terms without quantifiers and substitutions
  // ------------------------------------------------------------------

  predicate Plain(t: Term) {
    match t
    case Cons(h, tl) => Plain(h) && Plain(tl)
    case Struct(args) => Plains(args)
    case Quant(_, _, _, _, _) => false
    case Sub(_, _) => false
    case _ => true
  }

  predicate Plains(ts: seq<Term>) {
    ts == [] || (Plain(ts[0]) && Plains(ts[1..]))
  }

  predicate PlainPair(a: Pair) {
    a.p.sub == [] && a.q.sub == [] && Plain(a.p.term) && Plain(a.q.term)
  }

  lemma {:induction false} PlainAt(ts: seq<Term>, i: nat)
    requires Plains(ts) && i < |ts|
    ensures Plain(ts[i])
  {
    if i > 0 { PlainAt(ts[1..], i - 1); }
  }

  /** Constants and variables are plain, and lists and structures of plain terms. */
  lemma {:induction false} PlainTerms(t: Term)
    ensures match t
            case Atom(_) => Plain(t)
            case Num(_) => Plain(t)
            case Meta(_) => Plain(t)
            case Var(_) => Plain(t)
            case Cons(h, tl) => Plain(h) && Plain(tl) ==> Plain(t)
            case Struct(args) => (forall i :: 0 <= i < |args| ==> Plain(args[i])) ==> Plain(t)
            case _ => true
  {
    if t.Struct? && forall i :: 0 <= i < |t.args| ==> Plain(t.args[i]) { AllPlain(t.args); }
  }

  lemma {:induction false} AllPlain(ts: seq<Term>)
    requires forall i :: 0 <= i < |ts| ==> Plain(ts[i])
    ensures Plains(ts)
  {
    if ts != [] { AllPlain(ts[1..]); }
  }

  lemma PlainDereferenced(known: Distinctness, same: Same, p0: PrologValue, p: PrologValue)
    requires p0.sub == [] && Plain(p0.term) && DereferencesTo(known, same, p0, p)
    ensures p == p0
  {
  }

  lemma PlainParts(a: Pair, p0: PrologValue, q0: PrologValue)
    requires PlainPair(a) && Parts(a.p, a.q, p0, q0)
    ensures PlainPair(Pair(p0, q0))
  {
    if a.p.term.Struct? && a.q.term.Struct? {
      var i :| 0 <= i < |a.p.term.args| && i < |a.q.term.args|
               && p0 == PrologValue(a.p.sub, a.p.term.args[i]) && q0 == PrologValue(a.q.sub, a.q.term.args[i]);
      PlainAt(a.p.term.args, i);
      PlainAt(a.q.term.args, i);
    }
  }

  /** Plain terms lead to no variable under a substitution. */
  lemma {:induction false} PlainSettled(known: Distinctness, same: Same, path: seq<Pair>)
    requires Leads(known, same, path)
    ensures !PlainPair(path[0])
    decreases |path|
  {
    if PlainPair(path[0]) && |path| > 1 {
      assert GoesOn(known, same, path[0], path[1]);
      var p0, q0 :| Parts(path[0].p, path[0].q, p0, q0) && DereferencesTo(known, same, p0, path[1].p)
                    && DereferencesTo(known, same, q0, path[1].q);
      PlainParts(path[0], p0, q0);
      PlainDereferenced(known, same, p0, path[1].p);
      PlainDereferenced(known, same, q0, path[1].q);
      hide GoesOn, PlainPair, LeftUnder;
      forall i | 0 <= i < |path[1..]| - 1 ensures GoesOn(known, same, path[1..][i], path[1..][i + 1]) {
        assert GoesOn(known, same, path[i + 1], path[i + 2]);
      }
      PlainSettled(known, same, path[1..]);
    }
  }

  /** When all variables have names of their own, plain terms that mean the same are the same. */
  lemma {:induction false} PlainMeans(t: Term, u: Term)
    requires Plain(t) && Plain(u)
    ensures Den(OwnName, Top, Inst(Unbound, t), 0) == Den(OwnName, Top, Inst(Unbound, u), 0) <==> t == u
    decreases t
  {
    match t
    case Var(v) => SameName(t, u);
    case Cons(h, tl) =>
      if u.Cons? {
        PlainMeans(h, u.head);
        PlainMeans(tl, u.tail);
      }
      MetaMeans(u);
    case Struct(args) =>
      if u.Struct? { PlainsMean(args, u.args); }
      MetaMeans(u);
    case Meta(m) => MetaMeans(t); MetaMeans(u);
    case _ => MetaMeans(u);
  }

  lemma SameName(t: Term, u: Term)
    requires t.Var? && Plain(u)
    ensures Den(OwnName, Top, Inst(Unbound, t), 0) == Den(OwnName, Top, Inst(Unbound, u), 0) <==> t == u
  {
    VarInst(Unbound, t.v);
    assert Den(OwnName, Top, t, 0) == Look(OwnName, Top, t.v, 0) == VFree(OwnName(t.v));
    if u.Var? {
      VarInst(Unbound, u.v);
      assert Den(OwnName, Top, u, 0) == Look(OwnName, Top, u.v, 0) == VFree(OwnName(u.v));
    } else {
      MetaMeans(u);
    }
  }

  lemma MetaMeans(u: Term)
    ensures u.Meta? ==> Inst(Unbound, u) == u && Den(OwnName, Top, u, 0) == VMeta(u.m)
    ensures u.Var? ==> Den(OwnName, Top, Inst(Unbound, u), 0).VFree?
  {
    if u.Meta? { MetaUnbound(u.m); }
    if u.Var? {
      VarInst(Unbound, u.v);
      assert Den(OwnName, Top, u, 0) == Look(OwnName, Top, u.v, 0);
    }
  }

  lemma {:induction false} PlainsMean(ts: seq<Term>, us: seq<Term>)
    requires Plains(ts) && Plains(us)
    ensures Dens(OwnName, Top, Insts(Unbound, ts), 0) == Dens(OwnName, Top, Insts(Unbound, us), 0) <==> ts == us
    decreases ts
  {
    var vs, ws := Dens(OwnName, Top, Insts(Unbound, ts), 0), Dens(OwnName, Top, Insts(Unbound, us), 0);
    if ts != [] && us != [] {
      PlainMeans(ts[0], us[0]);
      PlainsMean(ts[1..], us[1..]);
      FirstMeans(ts);
      FirstMeans(us);
      assert vs == ws <==> vs[0] == ws[0] && vs[1..] == ws[1..] by {
        assert vs == [vs[0]] + vs[1..] && ws == [ws[0]] + ws[1..];
      }
      assert ts == us <==> ts[0] == us[0] && ts[1..] == us[1..] by {
        assert ts == [ts[0]] + ts[1..] && us == [us[0]] + us[1..];
      }
    } else if ts != [] {
      FirstMeans(ts);
    } else if us != [] {
      FirstMeans(us);
    }
  }

  lemma FirstMeans(ts: seq<Term>)
    requires ts != []
    ensures var vs := Dens(OwnName, Top, Insts(Unbound, ts), 0);
            && vs != [] && vs[0] == Den(OwnName, Top, Inst(Unbound, ts[0]), 0)
            && vs[1..] == Dens(OwnName, Top, Insts(Unbound, ts[1..]), 0)
  {
    var us := Insts(Unbound, ts);
    assert us[0] == Inst(Unbound, ts[0]) && us[1..] == Insts(Unbound, ts[1..]);
  }

  /** Plain terms are equal exactly when they are the same term, whatever is known of their variables. */
  lemma PlainDecided(known: Distinctness, same: Same, vars: iset<ObVar>, p: PrologValue, q: PrologValue, r: Verdict, path: seq<Pair>)
    requires Right(known, vars, p, q, r) && (r == Unknown ==> LeadsFrom(known, same, p, q, path)) && PlainPair(Pair(p, q))
    ensures r == if p.term == q.term then Equal else Different
  {
    if r == Unknown { PlainSettled(known, same, path); }
    assert Respects(OwnName, known) && Injective(OwnName, vars);
    UnboundOk();
    PlainMeans(p.term, q.term);
    assert Push(InstBlocks(Unbound, []), Top) == Top;
    assert Alike(OwnName, Unbound, 0, p, q) <==> p.term == q.term;
  }
}
