/** What == finds out about two terms, and how verdicts on parts make one on the whole. */
module Verdicts {
  import opened SubstitutedTerms
  import opened Dereference
  import opened Opening

  /** A term and the substitutions it is under. */
  datatype PrologValue = PrologValue(sub: seq<Block>, term: Term)

  function Measure(p: PrologValue): nat { BlockSizes(p.sub) + Size(p.term) }

  ghost predicate ValueOk(lim: Limits, p: PrologValue) { StateOk(lim, p.sub, p.term) }

  /** The parts of == that compare a variable under substitutions are not modelled. */
  datatype Verdict = Equal | Different | Unknown

  // ------------------------------------------------------------------
  // What a verdict says
  // ------------------------------------------------------------------

  /** Any meta-variables and any object variables. */
  ghost function AnyTerm(quants: nat): Limits { Limits(quants, false, Anywhere, iset v: ObVar | v.id >= 0) }

  /** Values for the meta-variables, in which $$quant does not occur. */
  ghost predicate BindingOk(mu: Binding) {
    forall m :: In(AnyTerm(0), mu(m))
  }

  ghost predicate Alike(name: Naming, mu: Binding, d: nat, p: PrologValue, q: PrologValue) {
    Meaning(name, mu, p.sub, p.term, Top, d) == Meaning(name, mu, q.sub, q.term, Top, d)
  }

  /** p and q mean the same, whatever object variables and meta-variables stand for. */
  ghost predicate Agree(known: Distinctness, p: PrologValue, q: PrologValue) {
    forall name, mu, d: nat :: Respects(name, known) && BindingOk(mu) ==> Alike(name, mu, d, p, q)
  }

  /** The given object variables have different names. */
  ghost predicate Injective(name: Naming, vars: iset<ObVar>) {
    forall v, w :: v in vars && w in vars && name(v) == name(w) ==> v == w
  }

  const Unbound: Binding := (m: nat) => Meta(m)

  /** p and q differ when different variables are different. */
  ghost predicate Apart(known: Distinctness, vars: iset<ObVar>, p: PrologValue, q: PrologValue) {
    forall name, d: nat :: Injective(name, vars) && Respects(name, known) ==> !Alike(name, Unbound, d, p, q)
  }

  ghost predicate Right(known: Distinctness, vars: iset<ObVar>, p: PrologValue, q: PrologValue, r: Verdict) {
    (r == Equal ==> Agree(known, p, q)) && (r == Different ==> Apart(known, vars, p, q))
  }

  /** Any two of the object variables are the same or known to be distinct. */
  ghost predicate Total(known: Distinctness, vars: iset<ObVar>) {
    forall v, w :: v in vars && w in vars && v != w ==> DistinctFrom(known, v, w)
  }

  lemma UnboundOk()
    ensures BindingOk(Unbound)
  {
  }

  // ------------------------------------------------------------------
  // Instances are well-formed
  // ------------------------------------------------------------------

  lemma ValueMono(lim: Limits, lim': Limits, p: PrologValue)
    requires ValueOk(lim, p) && lim.AtMost(lim')
    ensures ValueOk(lim', p)
  {
    OkMono(lim.UnderAny(p.sub), lim'.UnderAny(p.sub), p.term);
    BlocksMono(lim.Under(), lim'.Under(), p.sub);
  }

  lemma {:induction false} InstIn(mu: Binding, lim: Limits, t: Term)
    requires !lim.free && In(lim, t) && BindingOk(mu)
    ensures In(AnyTerm(lim.quants), Inst(mu, t))
    decreases t, 0
  {
    match t
    case Meta(m) => OkMono(AnyTerm(0), AnyTerm(lim.quants), mu(m));
    case Cons(h, tl) =>
      InstIn(mu, lim, h);
      InstIn(mu, lim, tl);
    case Struct(args) =>
      if !IsQuant(args, lim.quants) { InstIns(mu, lim, args); }
    case Quant(q, vars, typed, tys, body) =>
      InstIn(mu, lim, q);
      InstIns(mu, lim, tys);
      InstIn(mu, lim.UnderAny(vars), body);
    case Sub(blocks, u) =>
      InstBlocksOk(mu, lim.Under(), blocks);
      InstIn(mu, lim.UnderAny(blocks), u);
    case _ =>
  }

  lemma {:induction false} InstIns(mu: Binding, lim: Limits, ts: seq<Term>)
    requires !lim.free && Ins(lim, ts) && BindingOk(mu)
    ensures Ins(AnyTerm(lim.quants), Insts(mu, ts))
    decreases ts, 0
  {
    if ts != [] {
      InstIn(mu, lim, ts[0]);
      InstIns(mu, lim, ts[1..]);
    }
  }

  lemma {:induction false} InstBlocksOk(mu: Binding, lim: Limits, bs: seq<Block>)
    requires !lim.free && BlocksOk(lim, bs) && BindingOk(mu)
    ensures BlocksOk(AnyTerm(lim.quants), InstBlocks(mu, bs))
    decreases bs, 0
  {
    if bs != [] {
      InstIns(mu, lim, bs[0].rans);
      InstBlocksOk(mu, lim, bs[1..]);
    }
  }

  // ------------------------------------------------------------------
  // Quantifiers
  // ------------------------------------------------------------------

  /** The substitutions for the body of a quantifier. */
  function Opened(vars: seq<ObVar>, n: nat, s: seq<Block>): seq<Block> {
    if vars == [] then s else [QBlock(vars, n)] + s
  }

  lemma InstConst(mu: Binding, n: nat)
    ensures Inst(mu, QConst(n)) == QConst(n)
  {
    var args := [Atom(QUANT), Num(n)];
    assert args[1..] == [Num(n)] && Insts(mu, [Num(n)]) == [Num(n)];
    assert Insts(mu, args) == [Atom(QUANT)] + [Num(n)];
  }

  lemma InstConsts(mu: Binding, vars: seq<ObVar>, n: nat)
    ensures Insts(mu, QBlock(vars, n).rans) == QBlock(vars, n).rans
  {
    hide Inst, QConst, Insts;
    var rans := QBlock(vars, n).rans;
    forall i | 0 <= i < |rans| ensures Insts(mu, rans)[i] == rans[i] { InstConst(mu, n + i); }
  }

  /** The meaning of the body under the constants is the opened meaning of the body. */
  lemma BodyOpens(name: Naming, mu: Binding, s: seq<Block>, vars: seq<ObVar>, body: Term, d: nat, n: nat)
    ensures var cs := InstBlocks(mu, s);
            Meaning(name, mu, Opened(vars, n, s), body, Top, d + 1) ==
            Open(Den(name, Under(vars, d, Push(cs, Top)), Inst(mu, body), d + 1), d, |vars|, n)
  {
    hide Den, Open, Insts, Push, Inst, InstBlocks;
    var cs, u := InstBlocks(mu, s), Inst(mu, body);
    PushLevel(cs, Top, d, |vars|, n);
    if vars == [] {
      OpenMeans(name, Push(cs, Top), u, d + 1, d, 0, n);
    } else {
      OpenMeans(name, Bind(vars, d, Push(cs, Top)), u, d + 1, d, |vars|, n);
      PushHead(mu, Opened(vars, n, s), Top);
      InstConsts(mu, vars, n);
      assert Opened(vars, n, s)[1..] == s;
    }
  }

  /** The meaning of a body is clean. */
  lemma BodyClean(name: Naming, mu: Binding, s: seq<Block>, vars: seq<ObVar>, body: Term, d: nat, lim: Limits)
    requires !lim.free && BlocksOk(lim, s) && In(lim, body) && BindingOk(mu)
    ensures Clean(Den(name, Under(vars, d, Push(InstBlocks(mu, s), Top)), Inst(mu, body), d + 1), lim.quants)
  {
    hide In, BlocksOk, Clean, Den, BindingOk, Push, Inst, InstBlocks;
    var lim', cs := AnyTerm(lim.quants), InstBlocks(mu, s);
    InstBlocksOk(mu, lim, s);
    InstIn(mu, lim, body);
    PushOk(lim', cs, Top);
    assert EnvOk(lim', Under(vars, d, Push(cs, Top)));
    MeansClean(name, Under(vars, d, Push(cs, Top)), Inst(mu, body), d + 1, lim');
  }

  lemma {:induction false} DensAt(name: Naming, env: Env, ts: seq<Term>, d: nat)
    ensures |Dens(name, env, ts, d)| == |ts|
    ensures forall i :: 0 <= i < |ts| ==> Dens(name, env, ts, d)[i] == Den(name, env, ts[i], d)
  {
    if ts != [] { DensAt(name, env, ts[1..], d); }
  }

  /** Lists of terms mean the same when their elements do. */
  lemma ListsMean(name: Naming, mu: Binding, s: seq<Block>, ts: seq<Term>, s': seq<Block>, ts': seq<Term>, d: nat)
    ensures Dens(name, Push(InstBlocks(mu, s), Top), Insts(mu, ts), d) == Dens(name, Push(InstBlocks(mu, s'), Top), Insts(mu, ts'), d) <==>
            |ts| == |ts'| && forall i :: 0 <= i < |ts| ==> Meaning(name, mu, s, ts[i], Top, d) == Meaning(name, mu, s', ts'[i], Top, d)
  {
    DensAt(name, Push(InstBlocks(mu, s), Top), Insts(mu, ts), d);
    DensAt(name, Push(InstBlocks(mu, s'), Top), Insts(mu, ts'), d);
    hide Den, Dens, Push, Inst, InstBlocks;
    var vs, vs' := Dens(name, Push(InstBlocks(mu, s), Top), Insts(mu, ts), d), Dens(name, Push(InstBlocks(mu, s'), Top), Insts(mu, ts'), d);
    forall i | 0 <= i < |ts| ensures vs[i] == Meaning(name, mu, s, ts[i], Top, d) {}
    forall i | 0 <= i < |ts'| ensures vs'[i] == Meaning(name, mu, s', ts'[i], Top, d) {}
  }

  lemma StateAny(lim: Limits, s: seq<Block>, t: Term)
    requires !lim.free && StateOk(lim, s, t)
    ensures BlocksOk(AnyTerm(lim.quants), s) && Ok(AnyTerm(lim.quants), t)
  {
    BlocksMono(lim.Under(), AnyTerm(lim.quants), s);
    OkMono(lim.UnderAny(s), AnyTerm(lim.quants), t);
  }

  /** Two quantified terms mean the same exactly when their quantifiers, the types of their bound
      variables, and their bodies with new constants for the bound variables do. */
  lemma QuantsMean(name: Naming, mu: Binding, s1: seq<Block>, t1: Term, s2: seq<Block>, t2: Term, d: nat, n: nat, lim: Limits)
    requires !lim.free && t1.Quant? && t2.Quant? && |t1.vars| == |t2.vars| && BindingOk(mu) && lim.quants == n
    requires StateOk(lim, s1, t1) && StateOk(lim, s2, t2)
    ensures Meaning(name, mu, s1, t1, Top, d) == Meaning(name, mu, s2, t2, Top, d) <==>
            && Meaning(name, mu, s1, t1.q, Top, d) == Meaning(name, mu, s2, t2.q, Top, d)
            && t1.typed == t2.typed && |t1.tys| == |t2.tys|
            && (forall i :: 0 <= i < |t1.tys| ==> Meaning(name, mu, s1, t1.tys[i], Top, d) == Meaning(name, mu, s2, t2.tys[i], Top, d))
            && Meaning(name, mu, Opened(t1.vars, n, s1), t1.body, Top, d + 1) == Meaning(name, mu, Opened(t2.vars, n, s2), t2.body, Top, d + 1)
  {
    StateAny(lim, s1, t1);
    StateAny(lim, s2, t2);
    BodyOpens(name, mu, s1, t1.vars, t1.body, d, n);
    BodyOpens(name, mu, s2, t2.vars, t2.body, d, n);
    BodyClean(name, mu, s1, t1.vars, t1.body, d, AnyTerm(n));
    BodyClean(name, mu, s2, t2.vars, t2.body, d, AnyTerm(n));
    ListsMean(name, mu, s1, t1.tys, s2, t2.tys, d);
    QuantIs(name, mu, s1, t1, d);
    QuantIs(name, mu, s2, t2, d);
    hide *;
    var b1 := Den(name, Under(t1.vars, d, Push(InstBlocks(mu, s1), Top)), Inst(mu, t1.body), d + 1);
    var b2 := Den(name, Under(t2.vars, d, Push(InstBlocks(mu, s2), Top)), Inst(mu, t2.body), d + 1);
    if Open(b1, d, |t1.vars|, n) == Open(b2, d, |t2.vars|, n) { OpenInjective(b1, b2, d, |t1.vars|, n); }
  }

  lemma QuantIs(name: Naming, mu: Binding, s: seq<Block>, t: Term, d: nat)
    requires t.Quant?
    ensures var env := Push(InstBlocks(mu, s), Top);
            Meaning(name, mu, s, t, Top, d) ==
            VQuant(Meaning(name, mu, s, t.q, Top, d), t.typed, Dens(name, env, Insts(mu, t.tys), d),
                   Den(name, Under(t.vars, d, env), Inst(mu, t.body), d + 1))
  {
  }

  // ------------------------------------------------------------------
  // Combining verdicts
  // ------------------------------------------------------------------

  lemma RightSame(known: Distinctness, p: PrologValue, q: PrologValue)
    requires p == q
    ensures Agree(known, p, q)
  {
  }

  /** Dereferencing does not change the verdict. */
  lemma RightDereferenced(known: Distinctness, vars: iset<ObVar>, p0: PrologValue, q0: PrologValue, p: PrologValue, q: PrologValue, r: Verdict)
    requires SameMeaning(known, p0.sub, p0.term, p.sub, p.term) && SameMeaning(known, q0.sub, q0.term, q.sub, q.term)
    requires Right(known, vars, p, q, r)
    ensures Right(known, vars, p0, q0, r)
  {
    hide Meaning, Respects, BindingOk, Injective;
    if r == Equal {
      forall name, mu, d: nat | Respects(name, known) && BindingOk(mu) ensures Alike(name, mu, d, p0, q0) {
        assert Alike(name, mu, d, p, q);
      }
    }
    if r == Different {
      forall name, d: nat | Injective(name, vars) && Respects(name, known) ensures !Alike(name, Unbound, d, p0, q0) {
        assert !Alike(name, Unbound, d, p, q);
      }
    }
  }

  lemma ConsMeans(name: Naming, mu: Binding, d: nat, p: PrologValue, q: PrologValue)
    requires p.term.Cons? && q.term.Cons?
    ensures Alike(name, mu, d, p, q) <==>
            && Alike(name, mu, d, p.(term := p.term.head), q.(term := q.term.head))
            && Alike(name, mu, d, p.(term := p.term.tail), q.(term := q.term.tail))
  {
  }

  lemma RightCons(known: Distinctness, vars: iset<ObVar>, p: PrologValue, q: PrologValue, r1: Verdict, r2: Verdict)
    requires p.term.Cons? && q.term.Cons?
    requires Right(known, vars, p.(term := p.term.head), q.(term := q.term.head), r1)
    requires r1 == Equal ==> Right(known, vars, p.(term := p.term.tail), q.(term := q.term.tail), r2)
    ensures Right(known, vars, p, q, if r1 == Equal then r2 else r1)
  {
    hide Alike, Respects, BindingOk, Injective;
    forall name, mu, d: nat ensures Alike(name, mu, d, p, q) <==>
            && Alike(name, mu, d, p.(term := p.term.head), q.(term := q.term.head))
            && Alike(name, mu, d, p.(term := p.term.tail), q.(term := q.term.tail))
    {
      ConsMeans(name, mu, d, p, q);
    }
  }

  /** Structures, when the arguments before i agree. */
  ghost predicate ArgsAgree(known: Distinctness, s: seq<Block>, ts: seq<Term>, s': seq<Block>, ts': seq<Term>, i: nat) {
    i <= |ts| && i <= |ts'| && forall k :: 0 <= k < i ==> Agree(known, PrologValue(s, ts[k]), PrologValue(s', ts'[k]))
  }

  lemma StructMeans(name: Naming, mu: Binding, d: nat, p: PrologValue, q: PrologValue)
    requires p.term.Struct? && q.term.Struct?
    ensures Alike(name, mu, d, p, q) <==>
            |p.term.args| == |q.term.args|
            && forall i :: 0 <= i < |p.term.args| ==>
                 Alike(name, mu, d, PrologValue(p.sub, p.term.args[i]), PrologValue(q.sub, q.term.args[i]))
  {
    ListsMean(name, mu, p.sub, p.term.args, q.sub, q.term.args, d);
    StructIs(name, mu, p, d);
    StructIs(name, mu, q, d);
    hide Meaning, Dens, Insts;
  }

  lemma StructIs(name: Naming, mu: Binding, p: PrologValue, d: nat)
    requires p.term.Struct?
    ensures Meaning(name, mu, p.sub, p.term, Top, d) == VStruct(Dens(name, Push(InstBlocks(mu, p.sub), Top), Insts(mu, p.term.args), d))
  {
  }

  lemma RightStruct(known: Distinctness, vars: iset<ObVar>, p: PrologValue, q: PrologValue)
    requires p.term.Struct? && q.term.Struct?
    ensures |p.term.args| != |q.term.args| ==> Apart(known, vars, p, q)
    ensures |p.term.args| == |q.term.args| && ArgsAgree(known, p.sub, p.term.args, q.sub, q.term.args, |p.term.args|) ==> Agree(known, p, q)
    ensures |p.term.args| == |q.term.args| ==>
              forall i :: 0 <= i < |p.term.args| && Apart(known, vars, PrologValue(p.sub, p.term.args[i]), PrologValue(q.sub, q.term.args[i])) ==> Apart(known, vars, p, q)
  {
    hide Alike, Respects, BindingOk, Injective;
    var us, vs := p.term.args, q.term.args;
    forall name, mu, d: nat ensures Alike(name, mu, d, p, q) <==>
            |us| == |vs| && forall i :: 0 <= i < |us| ==> Alike(name, mu, d, PrologValue(p.sub, us[i]), PrologValue(q.sub, vs[i]))
    {
      StructMeans(name, mu, d, p, q);
    }
  }

  lemma QuantAlike(name: Naming, mu: Binding, d: nat, p: PrologValue, q: PrologValue, lim: Limits)
    requires !lim.free && p.term.Quant? && q.term.Quant? && |p.term.vars| == |q.term.vars| && BindingOk(mu)
    requires ValueOk(lim, p) && ValueOk(lim, q)
    ensures Alike(name, mu, d, p, q) <==>
            && Alike(name, mu, d, p.(term := p.term.q), q.(term := q.term.q))
            && p.term.typed == q.term.typed && |p.term.tys| == |q.term.tys|
            && (forall i :: 0 <= i < |p.term.tys| ==>
                  Alike(name, mu, d, PrologValue(p.sub, p.term.tys[i]), PrologValue(q.sub, q.term.tys[i])))
            && Alike(name, mu, d + 1, BodyOf(p, lim.quants), BodyOf(q, lim.quants))
  {
    QuantsMean(name, mu, p.sub, p.term, q.sub, q.term, d, lim.quants, lim);
    hide Meaning, Opened, BindingOk, StateOk;
  }

  /** The body of a quantified term under new constants. */
  function BodyOf(p: PrologValue, n: nat): PrologValue
    requires p.term.Quant?
  {
    PrologValue(Opened(p.term.vars, n, p.sub), p.term.body)
  }

  lemma QuantLengths(name: Naming, mu: Binding, d: nat, p: PrologValue, q: PrologValue)
    requires p.term.Quant? && q.term.Quant? && Alike(name, mu, d, p, q)
    ensures |p.term.tys| == |q.term.tys|
  {
    ListsMean(name, mu, p.sub, p.term.tys, q.sub, q.term.tys, d);
    QuantIs(name, mu, p.sub, p.term, d);
    QuantIs(name, mu, q.sub, q.term, d);
    hide Meaning, Dens, Insts, Den;
  }

  lemma RightLengths(known: Distinctness, vars: iset<ObVar>, p: PrologValue, q: PrologValue)
    requires p.term.Quant? && q.term.Quant? && |p.term.tys| != |q.term.tys|
    ensures Apart(known, vars, p, q)
  {
    hide Alike, Injective;
    forall name, d: nat | Injective(name, vars) && Respects(name, known) ensures !Alike(name, Unbound, d, p, q) {
      if Alike(name, Unbound, d, p, q) { QuantLengths(name, Unbound, d, p, q); }
    }
  }

  lemma QuantAgree(known: Distinctness, p: PrologValue, q: PrologValue, lim: Limits)
    requires !lim.free && p.term.Quant? && q.term.Quant? && |p.term.vars| == |q.term.vars| && ValueOk(lim, p) && ValueOk(lim, q)
    requires Agree(known, p.(term := p.term.q), q.(term := q.term.q))
    requires p.term.typed == q.term.typed && |p.term.tys| == |q.term.tys|
    requires ArgsAgree(known, p.sub, p.term.tys, q.sub, q.term.tys, |p.term.tys|)
    requires Agree(known, BodyOf(p, lim.quants), BodyOf(q, lim.quants))
    ensures Agree(known, p, q)
  {
    hide Alike, Respects, BindingOk, ValueOk, BodyOf;
    forall name, mu, d: nat | Respects(name, known) && BindingOk(mu) ensures Alike(name, mu, d, p, q) {
      QuantAlike(name, mu, d, p, q, lim);
      assert Alike(name, mu, d + 1, BodyOf(p, lim.quants), BodyOf(q, lim.quants));
    }
  }

  lemma QuantApart(known: Distinctness, vars: iset<ObVar>, p: PrologValue, q: PrologValue, lim: Limits)
    requires !lim.free && p.term.Quant? && q.term.Quant? && |p.term.vars| == |q.term.vars| && ValueOk(lim, p) && ValueOk(lim, q)
    ensures Apart(known, vars, p.(term := p.term.q), q.(term := q.term.q)) ==> Apart(known, vars, p, q)
    ensures p.term.typed != q.term.typed ==> Apart(known, vars, p, q)
    ensures |p.term.tys| == |q.term.tys| ==>
              forall i :: 0 <= i < |p.term.tys| && Apart(known, vars, PrologValue(p.sub, p.term.tys[i]), PrologValue(q.sub, q.term.tys[i])) ==> Apart(known, vars, p, q)
    ensures Apart(known, vars, BodyOf(p, lim.quants), BodyOf(q, lim.quants)) ==> Apart(known, vars, p, q)
  {
    hide Alike, Injective, BindingOk, ValueOk, BodyOf;
    UnboundOk();
    forall name, d: nat
      ensures Alike(name, Unbound, d, p, q) ==>
              && Alike(name, Unbound, d, p.(term := p.term.q), q.(term := q.term.q))
              && p.term.typed == q.term.typed && |p.term.tys| == |q.term.tys|
              && (forall i :: 0 <= i < |p.term.tys| ==>
                    Alike(name, Unbound, d, PrologValue(p.sub, p.term.tys[i]), PrologValue(q.sub, q.term.tys[i])))
              && Alike(name, Unbound, d + 1, BodyOf(p, lim.quants), BodyOf(q, lim.quants))
    {
      QuantAlike(name, Unbound, d, p, q, lim);
    }
  }

  // ------------------------------------------------------------------
  // Terms without parts
  // ------------------------------------------------------------------

  /** tTag */
  function Tag(t: Term): nat {
    match t
    case Atom(_) => 0
    case Num(_) => 1
    case Meta(_) => 2
    case Var(_) => 3
    case Cons(_, _) => 4
    case Struct(_) => 5
    case Quant(_, _, _, _, _) => 6
    case Sub(_, _) => 7
  }

  function ValueTag(v: Value): nat {
    match v
    case VAtom(_) => 0
    case VNum(_) => 1
    case VMeta(_) => 2
    case VFree(_) => 3
    case VBound(_, _) => 3
    case VCons(_, _) => 4
    case VStruct(_) => 5
    case VQuant(_, _, _, _) => 6
  }

  /** Not an object variable that still has substitutions to go through. */
  predicate Evaluated(p: PrologValue) {
    !p.term.Sub? && (p.term.Var? ==> p.sub == [])
  }

  lemma MetaUnbound(m: nat)
    ensures Inst(Unbound, Meta(m)) == Meta(m)
  {
    assert Unbound(m) == Meta(m);
  }

  lemma VarMeans(name: Naming, mu: Binding, v: ObVar, d: nat)
    ensures Meaning(name, mu, [], Var(v), Top, d) == VFree(name(v))
  {
    VarInst(mu, v);
    assert Push(InstBlocks(mu, []), Top) == Top;
    assert Look(name, Top, v, d) == VFree(name(v));
  }

  lemma TagMeans(name: Naming, d: nat, p: PrologValue)
    requires Evaluated(p)
    ensures ValueTag(Meaning(name, Unbound, p.sub, p.term, Top, d)) == Tag(p.term)
  {
    match p.term
    case Var(v) => VarMeans(name, Unbound, v, d);
    case Meta(m) => MetaUnbound(m);
    case _ =>
  }

  lemma TagsApart(known: Distinctness, vars: iset<ObVar>, p: PrologValue, q: PrologValue)
    requires Evaluated(p) && Evaluated(q) && Tag(p.term) != Tag(q.term)
    ensures Apart(known, vars, p, q)
  {
    hide Meaning, Injective, Tag, ValueTag;
    forall name, d: nat | Injective(name, vars) && Respects(name, known) ensures !Alike(name, Unbound, d, p, q) {
      TagMeans(name, d, p);
      TagMeans(name, d, q);
    }
  }

  /** Atoms, numbers, meta-variables, and object variables without substitutions. */
  predicate Simple(p: PrologValue) {
    Evaluated(p) && (p.term.Atom? || p.term.Num? || p.term.Meta? || p.term.Var?)
  }

  lemma SimpleApart(known: Distinctness, vars: iset<ObVar>, p: PrologValue, q: PrologValue)
    requires Simple(p) && Simple(q) && p.term != q.term
    requires p.term.Var? && q.term.Var? ==> p.term.v in vars && q.term.v in vars
    ensures Apart(known, vars, p, q)
  {
    forall name, d: nat | Injective(name, vars) && Respects(name, known) ensures !Alike(name, Unbound, d, p, q) {
      SimpleMeans(name, d, p);
      SimpleMeans(name, d, q);
      hide Meaning;
      if p.term.Var? && q.term.Var? { assert name(p.term.v) != name(q.term.v); }
    }
  }

  lemma SimpleMeans(name: Naming, d: nat, p: PrologValue)
    requires Simple(p)
    ensures Meaning(name, Unbound, p.sub, p.term, Top, d) ==
            match p.term
            case Atom(a) => VAtom(a)
            case Num(n) => VNum(n)
            case Meta(m) => VMeta(m)
            case Var(v) => VFree(name(v))
            case _ => VNum(0)
  {
    if p.term.Var? {
      hide Meaning;
      VarMeans(name, Unbound, p.term.v, d);
    } else if p.term.Meta? {
      MetaUnbound(p.term.m);
    }
  }

  lemma ConstantsAgree(known: Distinctness, p: PrologValue, q: PrologValue)
    requires p.term == q.term && (p.term.Atom? || p.term.Num? || p.sub == q.sub)
    ensures Agree(known, p, q)
  {
    if p.term.Atom? || p.term.Num? {
      forall name, mu, d: nat ensures Alike(name, mu, d, p, q) {}
    }
  }

  // ------------------------------------------------------------------
  // Deciding
  // ------------------------------------------------------------------

  /** When it is known which object variables differ there is one way to name them, and a verdict
      decides whether the terms are equal up to renaming of bound variables. */
  lemma Decides(known: Distinctness, vars: iset<ObVar>, p: PrologValue, q: PrologValue, r: Verdict, name: Naming, d: nat)
    requires Total(known, vars) && Right(known, vars, p, q, r) && r != Unknown && Respects(name, known)
    ensures r == Equal <==> Alike(name, Unbound, d, p, q)
  {
    hide Alike;
    UnboundOk();
    assert Injective(name, vars) by {
      forall v, w | v in vars && w in vars && name(v) == name(w) ensures v == w { assert v != w ==> DistinctFrom(known, v, w); }
    }
  }
}
