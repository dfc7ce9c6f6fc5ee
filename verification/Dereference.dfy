/** Lazy evaluation of substitutions when it is only partly known which object variables differ. */
module Dereference {
  import opened SubstitutedTerms

  // ------------------------------------------------------------------
  // Well-formed terms
  // ------------------------------------------------------------------

  /** All local or none. */
  predicate Homogeneous(vs: seq<ObVar>) {
    (forall v :: v in vs ==> v.local) || (forall v :: v in vs ==> !v.local)
  }

  /** Blocks are not empty, and their domains are all local or none is. */
  predicate DomsOk(b: Block) {
    |b.doms| == |b.rans| > 0 && Homogeneous(b.doms)
  }

  predicate BindersOk(vars: seq<ObVar>, typed: seq<bool>, tys: seq<Term>) {
    |vars| == |typed| == |tys| && Homogeneous(vars) && forall i :: 0 <= i < |vars| && !typed[i] ==> tys[i] == NOTYPE
  }

  /** The atom of the constants that stand for bound variables while terms are compared. */
  const QUANT := "$$quant"

  /** Where meta-variables may occur: nowhere, only where no substitution or quantifier is around
      them, or anywhere. */
  datatype Metas = NoMetas | Bare | Anywhere

  /** Which constants $$quant(n) may occur, n < quants, where meta-variables may, and which object
      variables may; if free, $$quant may occur in any way. */
  datatype Limits = Limits(quants: nat, free: bool, metas: Metas, vars: iset<ObVar>) {
    /** Under a substitution or a quantifier. */
    ghost function Under(): Limits { if metas == Bare then this.(metas := NoMetas) else this }

    ghost function UnderAny<T>(s: seq<T>): Limits { if s == [] then this else Under() }

    ghost predicate AtMost(lim: Limits) {
      && quants <= lim.quants && vars <= lim.vars && (free ==> lim.free)
      && (metas == NoMetas || metas == lim.metas || lim.metas == Anywhere)
    }
  }

  predicate IsQuant(args: seq<Term>, quants: nat) {
    |args| == 2 && args[0] == Atom(QUANT) && args[1].Num? && 0 <= args[1].n < quants
  }

  ghost predicate AllIn(vs: seq<ObVar>, vars: iset<ObVar>) {
    forall v :: v in vs ==> v in vars
  }

  /** Blocks are proper, and unless lim is free $$quant occurs below t only as the functor of the
      constants allowed. */
  ghost predicate Ok(lim: Limits, t: Term)
    decreases t, 0
  {
    match t
    case Var(v) => v in lim.vars
    case Meta(_) => lim.metas != NoMetas
    case Cons(h, tl) => In(lim, h) && In(lim, tl)
    case Struct(args) => IsQuant(args, lim.quants) || Ins(lim, args)
    case Quant(q, vars, typed, tys, body) =>
      In(lim, q) && BindersOk(vars, typed, tys) && AllIn(vars, lim.vars) && Ins(lim, tys) && In(lim.UnderAny(vars), body)
    case Sub(blocks, u) => BlocksOk(lim.Under(), blocks) && In(lim.UnderAny(blocks), u)
    case _ => true
  }

  ghost predicate In(lim: Limits, t: Term)
    decreases t, 1
  {
    (lim.free || t != Atom(QUANT)) && Ok(lim, t)
  }

  ghost predicate Ins(lim: Limits, ts: seq<Term>)
    decreases ts, 0
  {
    ts == [] || (In(lim, ts[0]) && Ins(lim, ts[1..]))
  }

  ghost predicate BlocksOk(lim: Limits, bs: seq<Block>)
    decreases bs, 0
  {
    bs == [] || (DomsOk(bs[0]) && AllIn(bs[0].doms, lim.vars) && Ins(lim, bs[0].rans) && BlocksOk(lim, bs[1..]))
  }

  /** A term and the substitutions around it. */
  ghost predicate StateOk(lim: Limits, s: seq<Block>, t: Term) {
    BlocksOk(lim.Under(), s) && Ok(lim.UnderAny(s), t)
  }

  lemma {:induction false} InAt(lim: Limits, ts: seq<Term>, i: nat)
    requires Ins(lim, ts) && i < |ts|
    ensures In(lim, ts[i])
  {
    if i > 0 { InAt(lim, ts[1..], i - 1); }
  }

  lemma {:induction false} BlocksOkAppend(lim: Limits, a: seq<Block>, b: seq<Block>)
    requires BlocksOk(lim, a) && BlocksOk(lim, b)
    ensures BlocksOk(lim, a + b)
  {
    if a == [] {
      assert a + b == b;
    } else {
      assert (a + b)[1..] == a[1..] + b;
      BlocksOkAppend(lim, a[1..], b);
    }
  }

  lemma {:induction false} OkMono(lim: Limits, lim': Limits, t: Term)
    requires Ok(lim, t) && lim.AtMost(lim')
    ensures Ok(lim', t)
    decreases t, 0
  {
    match t
    case Cons(h, tl) =>
      OkMono(lim, lim', h);
      OkMono(lim, lim', tl);
    case Struct(args) => if !IsQuant(args, lim.quants) { InsMono(lim, lim', args); }
    case Quant(q, vars, typed, tys, body) =>
      OkMono(lim, lim', q);
      InsMono(lim, lim', tys);
      OkMono(lim.UnderAny(vars), lim'.UnderAny(vars), body);
    case Sub(blocks, u) =>
      BlocksMono(lim.Under(), lim'.Under(), blocks);
      OkMono(lim.UnderAny(blocks), lim'.UnderAny(blocks), u);
    case _ =>
  }

  lemma {:induction false} InsMono(lim: Limits, lim': Limits, ts: seq<Term>)
    requires Ins(lim, ts) && lim.AtMost(lim')
    ensures Ins(lim', ts)
    decreases ts, 0
  {
    if ts != [] {
      OkMono(lim, lim', ts[0]);
      InsMono(lim, lim', ts[1..]);
    }
  }

  lemma {:induction false} BlocksMono(lim: Limits, lim': Limits, bs: seq<Block>)
    requires BlocksOk(lim, bs) && lim.AtMost(lim')
    ensures BlocksOk(lim', bs)
    decreases bs, 0
  {
    if bs != [] {
      InsMono(lim, lim', bs[0].rans);
      BlocksMono(lim, lim', bs[1..]);
    }
  }

  /** Every list of domains that are all local, or all ordinary, with as many ranges, makes a proper block. */
  lemma ProperBlock(b: Block)
    requires |b.doms| == |b.rans| > 0
    requires (forall i :: 0 <= i < |b.doms| ==> b.doms[i].local) || (forall i :: 0 <= i < |b.doms| ==> !b.doms[i].local)
    ensures DomsOk(b)
  {
  }

  /** Where nothing is restricted every term is accepted whose blocks and binder lists are proper. */
  lemma AcceptedTerms(lim: Limits, t: Term)
    requires lim.free && lim.metas == Anywhere && forall v :: v in lim.vars
    ensures match t
            case Cons(h, tl) => Ok(lim, h) && Ok(lim, tl) ==> Ok(lim, t)
            case Struct(args) => (forall i :: 0 <= i < |args| ==> Ok(lim, args[i])) ==> Ok(lim, t)
            case Quant(q, vars, typed, tys, body) =>
              (&& Ok(lim, q) && Ok(lim, body) && (forall i :: 0 <= i < |tys| ==> Ok(lim, tys[i])) && |vars| == |typed| == |tys|
               && (forall i :: 0 <= i < |vars| ==> typed[i] || tys[i] == Atom(""))
               && ((forall i :: 0 <= i < |vars| ==> vars[i].local) || (forall i :: 0 <= i < |vars| ==> !vars[i].local)))
              ==> Ok(lim, t)
            case Sub(blocks, u) => Ok(lim, u) && (forall i :: 0 <= i < |blocks| ==> BlockOk(lim, blocks[i])) ==> Ok(lim, t)
            case _ => Ok(lim, t)
    ensures Ok(lim, t) ==> StateOk(lim, [], t)
  {
    assert lim.Under() == lim;
    match t
    case Struct(args) => if forall i :: 0 <= i < |args| ==> Ok(lim, args[i]) { AllAccepted(lim, args); }
    case Quant(_, _, _, tys, _) => if forall i :: 0 <= i < |tys| ==> Ok(lim, tys[i]) { AllAccepted(lim, tys); }
    case Sub(blocks, u) => if forall i :: 0 <= i < |blocks| ==> BlockOk(lim, blocks[i]) { BlocksAccepted(lim, blocks); }
    case _ =>
  }

  ghost predicate BlockOk(lim: Limits, b: Block) {
    DomsOk(b) && forall i :: 0 <= i < |b.rans| ==> Ok(lim, b.rans[i])
  }

  lemma {:induction false} AllAccepted(lim: Limits, ts: seq<Term>)
    requires lim.free && forall i :: 0 <= i < |ts| ==> Ok(lim, ts[i])
    ensures Ins(lim, ts)
  {
    if ts != [] { AllAccepted(lim, ts[1..]); }
  }

  lemma {:induction false} BlocksAccepted(lim: Limits, bs: seq<Block>)
    requires lim.free && (forall v :: v in lim.vars) && forall i :: 0 <= i < |bs| ==> BlockOk(lim, bs[i])
    ensures BlocksOk(lim, bs)
  {
    if bs != [] {
      assert BlockOk(lim, bs[0]);
      AllAccepted(lim, bs[0].rans);
      BlocksAccepted(lim, bs[1..]);
    }
  }

  lemma StateSub(lim: Limits, s: seq<Block>, blocks: seq<Block>, u: Term)
    requires StateOk(lim, s, Sub(blocks, u))
    ensures StateOk(lim, blocks + s, u)
  {
    var l := lim.UnderAny(s);
    assert l.Under() == lim.Under() && l.UnderAny(blocks) == lim.UnderAny(blocks + s);
    assert BlocksOk(l.Under(), blocks) && In(l.UnderAny(blocks), u);
    BlocksOkAppend(lim.Under(), blocks, s);
  }

  lemma StateTake(lim: Limits, s: seq<Block>, t: Term, k: nat)
    requires StateOk(lim, s, t) && s != [] && k < |s[0].rans|
    ensures StateOk(lim, s[1..], s[0].rans[k])
  {
    InAt(lim.Under(), s[0].rans, k);
    OkMono(lim.Under(), lim, s[0].rans[k]);
  }

  // ------------------------------------------------------------------
  // What is known of names
  // ------------------------------------------------------------------

  /** (v, w) in known: w is in the distinctness list of v. */
  type Distinctness = set<(ObVar, ObVar)>

  predicate DistinctFrom(known: Distinctness, v: ObVar, w: ObVar) {
    v != w && (v.local || w.local || (v, w) in known)
  }

  /** The naming gives different names where it must. */
  ghost predicate Respects(name: Naming, known: Distinctness) {
    forall v, w :: DistinctFrom(known, v, w) ==> name(v) != name(w)
  }

  /** (s, t) and (s', t') mean the same, whatever the names and the values of meta-variables. */
  ghost predicate SameMeaning(known: Distinctness, s: seq<Block>, t: Term, s': seq<Block>, t': Term) {
    forall name, mu, env, d :: Respects(name, known) ==> Meaning(name, mu, s, t, env, d) == Meaning(name, mu, s', t', env, d)
  }

  lemma SameRefl(known: Distinctness, s: seq<Block>, t: Term)
    ensures SameMeaning(known, s, t, s, t)
  {
  }

  lemma SameTrans(known: Distinctness, s: seq<Block>, t: Term, s1: seq<Block>, t1: Term, s2: seq<Block>, t2: Term)
    requires SameMeaning(known, s, t, s1, t1) && SameMeaning(known, s1, t1, s2, t2)
    ensures SameMeaning(known, s, t, s2, t2)
  {
    hide Meaning, Respects;
    forall name, mu, env, d | Respects(name, known)
      ensures Meaning(name, mu, s, t, env, d) == Meaning(name, mu, s2, t2, env, d)
    {
      assert Meaning(name, mu, s, t, env, d) == Meaning(name, mu, s1, t1, env, d);
    }
  }

  // ------------------------------------------------------------------
  // The steps
  // ------------------------------------------------------------------

  /** The substitutions of the term come before those around it. */
  lemma SameSub(known: Distinctness, s: seq<Block>, blocks: seq<Block>, u: Term)
    ensures SameMeaning(known, s, Sub(blocks, u), blocks + s, u)
  {
    forall name, mu, env, d ensures Meaning(name, mu, s, Sub(blocks, u), env, d) == Meaning(name, mu, blocks + s, u, env, d) {
      InstAppend(mu, blocks, s);
      PushAppend(InstBlocks(mu, blocks), InstBlocks(mu, s), env);
    }
  }

  lemma SameConstant(known: Distinctness, s: seq<Block>, t: Term)
    requires t.Atom? || t.Num?
    ensures SameMeaning(known, s, t, [], t)
  {
  }

  /** The block does nothing to a variable distinct from all its domains. */
  lemma SamePass(known: Distinctness, s: seq<Block>, v: ObVar)
    requires s != [] && |s[0].doms| == |s[0].rans| && forall w :: w in s[0].doms ==> DistinctFrom(known, v, w)
    ensures SameMeaning(known, s, Var(v), s[1..], Var(v))
  {
    forall name, mu, env, d | Respects(name, known)
      ensures Meaning(name, mu, s, Var(v), env, d) == Meaning(name, mu, s[1..], Var(v), env, d)
    {
      PassOne(name, known, s, v, mu, env, d);
    }
  }

  lemma PassOne(name: Naming, known: Distinctness, s: seq<Block>, v: ObVar, mu: Binding, env: Env, d: nat)
    requires s != [] && |s[0].doms| == |s[0].rans| && (forall w :: w in s[0].doms ==> DistinctFrom(known, v, w)) && Respects(name, known)
    ensures Meaning(name, mu, s, Var(v), env, d) == Meaning(name, mu, s[1..], Var(v), env, d)
  {
    hide DomsOk, DistinctFrom, Den, Look, Push, InstBlocks;
    var doms := s[0].doms;
    forall k | 0 <= k < |doms| ensures name(doms[k]) != name(v) { assert doms[k] in doms; }
    var i := First(name, doms, v);
    PushHead(mu, s, env);
    LookSubst(name, Block(doms, Insts(mu, s[0].rans)), Push(InstBlocks(mu, s[1..]), env), v, d);
  }

  /** What one block does to a variable. */
  lemma LookSubst(name: Naming, b: Block, rest: Env, v: ObVar, d: nat)
    ensures var i := First(name, b.doms, v);
            Den(name, Subst(b, rest), Var(v), d) ==
            if i < |b.doms| && i < |b.rans| then Den(name, rest, b.rans[i], d) else Den(name, rest, Var(v), d)
  {
  }

  lemma PushHead(mu: Binding, s: seq<Block>, env: Env)
    requires s != []
    ensures Push(InstBlocks(mu, s), env) == Subst(Block(s[0].doms, Insts(mu, s[0].rans)), Push(InstBlocks(mu, s[1..]), env))
  {
    var cs := InstBlocks(mu, s);
    assert cs[0] == Block(s[0].doms, Insts(mu, s[0].rans)) && cs[1..] == InstBlocks(mu, s[1..]);
  }

  /** Pair k replaces the variable, whichever earlier domains turn out to be the same variable. */
  lemma SameTake(known: Distinctness, s: seq<Block>, v: ObVar, k: nat)
    requires s != [] && k < |s[0].doms| == |s[0].rans| && s[0].doms[k] == v
    requires forall i :: 0 <= i < k ==> DistinctFrom(known, v, s[0].doms[i]) || s[0].rans[i] == s[0].rans[k]
    ensures SameMeaning(known, s, Var(v), s[1..], s[0].rans[k])
  {
    forall name, mu, env, d | Respects(name, known)
      ensures Meaning(name, mu, s, Var(v), env, d) == Meaning(name, mu, s[1..], s[0].rans[k], env, d)
    {
      TakeOne(name, known, s, v, k, mu, env, d);
    }
  }

  lemma TakeOne(name: Naming, known: Distinctness, s: seq<Block>, v: ObVar, k: nat, mu: Binding, env: Env, d: nat)
    requires s != [] && k < |s[0].doms| == |s[0].rans| && s[0].doms[k] == v && Respects(name, known)
    requires forall i :: 0 <= i < k ==> DistinctFrom(known, v, s[0].doms[i]) || s[0].rans[i] == s[0].rans[k]
    ensures Meaning(name, mu, s, Var(v), env, d) == Meaning(name, mu, s[1..], s[0].rans[k], env, d)
  {
    hide DistinctFrom, Den, Look, Push, InstBlocks, Inst;
    var i := First(name, s[0].doms, v);
    assert i <= k && s[0].rans[i] == s[0].rans[k];
    PushHead(mu, s, env);
    VarInst(mu, v);
    LookSubst(name, Block(s[0].doms, Insts(mu, s[0].rans)), Push(InstBlocks(mu, s[1..]), env), v, d);
  }

  lemma VarInst(mu: Binding, v: ObVar)
    ensures Inst(mu, Var(v)) == Var(v)
  {
  }

  // ------------------------------------------------------------------
  // Dereferencing
  // ------------------------------------------------------------------

  /** Whether two equal terms are one heap object is left open: same says so for the comparison made
      at a given moment. */
  type Same = (nat, Term, Term) -> bool

  ghost predicate SameIsEqual(same: Same) {
    forall m, x, y :: same(m, x, y) ==> x == y
  }

  datatype Evaluation = Taken(k: nat) | Passed | Stuck

  /** What a block does to the variable v, from pair i on; first is the earliest pair before i whose
      domain may be v, or -1.  A pair for v is taken, and a further pair that may be v skipped, only if
      its range is the same object as that of the first; moment m + i is that of the comparison. */
  function Evaluate(known: Distinctness, same: Same, m: nat, v: ObVar, b: Block, i: nat, first: int): (e: Evaluation)
    requires |b.doms| == |b.rans| && i <= |b.doms| && -1 <= first < i
    ensures e.Taken? ==> i <= e.k < |b.doms|
    decreases |b.doms| - i
  {
    if i == |b.doms| then (if first == -1 then Passed else Stuck)
    else if b.doms[i] == v then (if first == -1 || same(m + i, b.rans[first], b.rans[i]) then Taken(i) else Stuck)
    else if DistinctFrom(known, v, b.doms[i]) then Evaluate(known, same, m, v, b, i + 1, first)
    else if first == -1 then Evaluate(known, same, m, v, b, i + 1, i)
    else if same(m + i, b.rans[first], b.rans[i]) then Evaluate(known, same, m, v, b, i + 1, first)
    else Stuck
  }

  /** No pair of the block can be taken: before each pair for v, or at it, a range is not the object
      that the range of an earlier domain that may be v is. */
  ghost predicate Undecided(known: Distinctness, same: Same, m: nat, v: ObVar, b: Block) {
    |b.doms| == |b.rans| &&
    forall k :: 0 <= k < |b.doms| && b.doms[k] == v ==> Differ(known, same, m, v, b, k)
  }

  ghost predicate Differ(known: Distinctness, same: Same, m: nat, v: ObVar, b: Block, k: nat)
    requires k < |b.doms| == |b.rans|
  {
    exists i, j :: 0 <= i < j <= k && b.doms[i] != v && !DistinctFrom(known, v, b.doms[i]) && !same(m + j, b.rans[i], b.rans[j])
  }

  /** What the pairs before i have shown. */
  ghost predicate Scanned(known: Distinctness, v: ObVar, b: Block, i: nat, first: int) {
    && |b.doms| == |b.rans| && i <= |b.doms| && -1 <= first < i
    && (forall k :: 0 <= k < i ==> b.doms[k] != v)
    && (forall k :: 0 <= k < i ==> DistinctFrom(known, v, b.doms[k]) || (first != -1 && b.rans[k] == b.rans[first]))
    && (first != -1 ==> !DistinctFrom(known, v, b.doms[first]))
  }

  /** What is taken or passed may be, for every naming; what is not may not, for all that is known. */
  ghost predicate Judged(known: Distinctness, same: Same, m: nat, v: ObVar, b: Block, e: Evaluation) {
    && (e.Taken? ==> e.k < |b.doms| == |b.rans| && b.doms[e.k] == v)
    && (e.Taken? ==> forall i :: 0 <= i < e.k ==> DistinctFrom(known, v, b.doms[i]) || b.rans[i] == b.rans[e.k])
    && (e == Passed ==> forall w :: w in b.doms ==> DistinctFrom(known, v, w))
    && (e == Stuck ==> exists w :: w in b.doms && w != v && !DistinctFrom(known, v, w))
    && (e == Stuck ==> Undecided(known, same, m, v, b))
  }

  lemma {:induction false} EvaluateJudged(known: Distinctness, same: Same, m: nat, v: ObVar, b: Block, i: nat, first: int)
    requires SameIsEqual(same) && Scanned(known, v, b, i, first)
    ensures Judged(known, same, m, v, b, Evaluate(known, same, m, v, b, i, first))
    decreases |b.doms| - i
  {
    if i < |b.doms| {
      if b.doms[i] != v && DistinctFrom(known, v, b.doms[i]) {
        EvaluateJudged(known, same, m, v, b, i + 1, first);
      } else if b.doms[i] != v && first == -1 {
        EvaluateJudged(known, same, m, v, b, i + 1, i);
      } else if b.doms[i] != v && same(m + i, b.rans[first], b.rans[i]) {
        EvaluateJudged(known, same, m, v, b, i + 1, first);
      } else if first != -1 && !same(m + i, b.rans[first], b.rans[i]) {
        StuckHere(known, same, m, v, b, i, first);
      }
    } else if first != -1 {
      assert b.doms[first] in b.doms;
    }
  }

  lemma StuckHere(known: Distinctness, same: Same, m: nat, v: ObVar, b: Block, i: nat, first: int)
    requires Scanned(known, v, b, i, first) && i < |b.doms| && first != -1 && !same(m + i, b.rans[first], b.rans[i])
    ensures Judged(known, same, m, v, b, Stuck)
  {
    assert b.doms[first] in b.doms;
    forall k | 0 <= k < |b.doms| && b.doms[k] == v ensures Differ(known, same, m, v, b, k) {
      assert 0 <= first < i <= k;
    }
  }

  /** One block and an ordinary object variable. */
  method EvaluateBlock(known: Distinctness, same: Same, m: nat, v: ObVar, b: Block) returns (e: Evaluation)
    requires DomsOk(b) && SameIsEqual(same)
    ensures e == Evaluate(known, same, m, v, b, 0, -1) && Judged(known, same, m, v, b, e)
  {
    EvaluateJudged(known, same, m, v, b, 0, -1);
    hide Judged, SameIsEqual;
    ghost var first := -1;
    var saved, derefed, save := false, false, Var(v);
    for i := 0 to |b.doms|
      invariant -1 <= first < i && (saved <==> first != -1) && (saved ==> save == b.rans[first])
      invariant Evaluate(known, same, m, v, b, 0, -1) == Evaluate(known, same, m, v, b, i, first)
      invariant i > 0 ==> (derefed <==> !saved)
    {
      var domain, range := b.doms[i], b.rans[i];
      if v == domain && (!saved || same(m + i, save, range)) {
        return Taken(i);
      } else if DistinctFrom(known, v, domain) {
        if !saved {
          derefed := true;
        }
      } else {
        derefed := false;
        if !saved {
          saved, save, first := true, range, i;
        } else if !same(m + i, save, range) {
          return Stuck;
        }
      }
    }
    return if derefed then Passed else Stuck;
  }

  /** One block and a local object variable, which differs from every other variable. */
  method EvaluateLocal(ghost known: Distinctness, ghost same: Same, ghost m: nat, v: ObVar, b: Block) returns (e: Evaluation)
    requires DomsOk(b) && v.local && SameIsEqual(same)
    ensures e == Evaluate(known, same, m, v, b, 0, -1) && Judged(known, same, m, v, b, e) && e != Stuck
  {
    EvaluateJudged(known, same, m, v, b, 0, -1);
    hide Judged, SameIsEqual;
    assert b.doms[0] in b.doms;
    if b.doms[0].local {
      for i := 0 to |b.doms|
        invariant Evaluate(known, same, m, v, b, 0, -1) == Evaluate(known, same, m, v, b, i, -1)
      {
        if v == b.doms[i] {
          return Taken(i);
        }
      }
    } else {
      PassesDistinct(known, same, m, v, b, 0);
    }
    return Passed;
  }

  lemma {:induction false} PassesDistinct(known: Distinctness, same: Same, m: nat, v: ObVar, b: Block, i: nat)
    requires |b.doms| == |b.rans| && i <= |b.doms| && forall w :: w in b.doms ==> DistinctFrom(known, v, w)
    ensures Evaluate(known, same, m, v, b, i, -1) == Passed
    decreases |b.doms| - i
  {
    if i < |b.doms| {
      assert b.doms[i] in b.doms;
      PassesDistinct(known, same, m, v, b, i + 1);
    }
  }

  /** A term, the substitutions around it, and the moment reached. */
  datatype State = State(moment: nat, s: seq<Block>, t: Term)

  /** What dereferencing makes of the term t under the substitutions s. */
  function Deref(known: Distinctness, same: Same, m: nat, s: seq<Block>, t: Term): State
    decreases BlockSizes(s) + Size(t)
  {
    match t
    case Sub(blocks, u) =>
      PushAppend(blocks, s, Top);
      Deref(known, same, m, blocks + s, u)
    case Atom(_) => State(m, [], t)
    case Num(_) => State(m, [], t)
    case Var(v) =>
      if s == [] || |s[0].doms| != |s[0].rans| then State(m, s, t)
      else (
        match Evaluate(known, same, m, v, s[0], 0, -1)
        case Stuck => State(m + |s[0].doms|, s, t)
        case Passed => Deref(known, same, m + |s[0].doms|, s[1..], t)
        case Taken(k) =>
          SizeAt(s[0].rans, k);
          Deref(known, same, m + |s[0].doms|, s[1..], s[0].rans[k])
      )
    case _ => State(m, s, t)
  }

  /** Where dereferencing stops: at a constant without substitutions, at a variable without
      substitutions or one for which the first block cannot be evaluated, or at any other term. */
  ghost predicate Stopped(known: Distinctness, s: seq<Block>, t: Term) {
    && !t.Sub?
    && (t.Atom? || t.Num? ==> s == [])
    && (t.Var? && s != [] ==> exists w :: w in s[0].doms && w != t.v && !DistinctFrom(known, t.v, w))
  }

  /** Where dereferencing stops, and why it may: the meaning is the same. */
  ghost predicate Dereferenced(known: Distinctness, same: Same, lim: Limits, s0: seq<Block>, t0: Term, s: seq<Block>, t: Term) {
    && StateOk(lim, s, t) && Stopped(known, s, t) && SameMeaning(known, s0, t0, s, t)
    && (t.Var? && s != [] ==> exists m :: Undecided(known, same, m, t.v, s[0]))
    && BlockSizes(s) + Size(t) <= BlockSizes(s0) + Size(t0)
  }

  lemma DereferencedFrom(known: Distinctness, same: Same, lim: Limits, s0: seq<Block>, t0: Term, s1: seq<Block>, t1: Term, r: State)
    requires SameMeaning(known, s0, t0, s1, t1) && Dereferenced(known, same, lim, s1, t1, r.s, r.t)
    requires BlockSizes(s1) + Size(t1) <= BlockSizes(s0) + Size(t0)
    ensures Dereferenced(known, same, lim, s0, t0, r.s, r.t)
  {
    SameTrans(known, s0, t0, s1, t1, r.s, r.t);
  }

  lemma {:induction false} DerefIs(known: Distinctness, same: Same, m: nat, s: seq<Block>, t: Term, lim: Limits)
    requires StateOk(lim, s, t) && SameIsEqual(same)
    ensures var r := Deref(known, same, m, s, t); r.moment >= m && Dereferenced(known, same, lim, s, t, r.s, r.t)
    decreases BlockSizes(s) + Size(t)
  {
    hide SameMeaning, DistinctFrom, Evaluate, SameIsEqual, Undecided, Judged, StateOk;
    SameRefl(known, s, t);
    match t
    case Sub(blocks, u) =>
      SameSub(known, s, blocks, u);
      StateSub(lim, s, blocks, u);
      PushAppend(blocks, s, Top);
      DerefIs(known, same, m, blocks + s, u, lim);
      DereferencedFrom(known, same, lim, s, t, blocks + s, u, Deref(known, same, m, blocks + s, u));
    case Atom(_) => ConstantStops(known, same, s, t, lim);
    case Num(_) => ConstantStops(known, same, s, t, lim);
    case Var(v) =>
      if s != [] {
        BlockShape(lim, s, t);
        ScanStart(known, v, s[0]);
        EvaluateJudged(known, same, m, v, s[0], 0, -1);
        VariableSteps(known, same, m, s, v, lim, Evaluate(known, same, m, v, s[0], 0, -1));
        match Evaluate(known, same, m, v, s[0], 0, -1)
        case Stuck =>
        case Passed =>
          DerefIs(known, same, m + |s[0].doms|, s[1..], t, lim);
          DereferencedFrom(known, same, lim, s, t, s[1..], t, Deref(known, same, m + |s[0].doms|, s[1..], t));
        case Taken(k) =>
          DerefIs(known, same, m + |s[0].doms|, s[1..], s[0].rans[k], lim);
          DereferencedFrom(known, same, lim, s, t, s[1..], s[0].rans[k], Deref(known, same, m + |s[0].doms|, s[1..], s[0].rans[k]));
      }
    case _ =>
  }

  lemma ScanStart(known: Distinctness, v: ObVar, b: Block)
    requires |b.doms| == |b.rans|
    ensures Scanned(known, v, b, 0, -1)
  {
  }

  lemma ConstantStops(known: Distinctness, same: Same, s: seq<Block>, t: Term, lim: Limits)
    requires StateOk(lim, s, t) && (t.Atom? || t.Num?)
    ensures Dereferenced(known, same, lim, s, t, [], t)
  {
    SameConstant(known, s, t);
  }

  /** One block: what each evaluation is good for. */
  lemma VariableSteps(known: Distinctness, same: Same, m: nat, s: seq<Block>, v: ObVar, lim: Limits, e: Evaluation)
    requires StateOk(lim, s, Var(v)) && s != [] && DomsOk(s[0]) && Judged(known, same, m, v, s[0], e)
    ensures e == Stuck ==> Dereferenced(known, same, lim, s, Var(v), s, Var(v))
    ensures e == Passed ==> SameMeaning(known, s, Var(v), s[1..], Var(v)) && StateOk(lim, s[1..], Var(v))
                            && BlockSizes(s[1..]) < BlockSizes(s)
    ensures e.Taken? ==> e.k < |s[0].rans| && SameMeaning(known, s, Var(v), s[1..], s[0].rans[e.k]) && StateOk(lim, s[1..], s[0].rans[e.k])
                         && BlockSizes(s[1..]) + Size(s[0].rans[e.k]) < BlockSizes(s) + Size(Var(v))
  {
    hide SameMeaning, DistinctFrom, Undecided;
    match e
    case Stuck => SameRefl(known, s, Var(v));
    case Passed => SamePass(known, s, v);
    case Taken(k) =>
      SameTake(known, s, v, k);
      StateTake(lim, s, Var(v), k);
      SizeAt(s[0].rans, k);
  }

  method SubstitutionDereference(known: Distinctness, same: Same, m0: nat, s0: seq<Block>, t0: Term, ghost lim: Limits)
    returns (m: nat, s: seq<Block>, t: Term)
    requires StateOk(lim, s0, t0) && SameIsEqual(same)
    ensures State(m, s, t) == Deref(known, same, m0, s0, t0) && m >= m0
    ensures StateOk(lim, s, t) && Stopped(known, s, t)
    ensures t.Var? && s != [] ==> exists m' :: Undecided(known, same, m', t.v, s[0])
    ensures BlockSizes(s) + Size(t) <= BlockSizes(s0) + Size(t0)
    ensures SameMeaning(known, s0, t0, s, t)
  {
    DerefIs(known, same, m0, s0, t0, lim);
    hide SameMeaning, DistinctFrom, DomsOk, Undecided, Evaluate, Judged, Stopped;
    m, s, t := m0, s0, t0;
    while true
      invariant StateOk(lim, s, t) && Deref(known, same, m, s, t) == Deref(known, same, m0, s0, t0)
      decreases BlockSizes(s) + Size(t)
    {
      ghost var n := BlockSizes(s) + Size(t);
      while t.Sub?
        invariant StateOk(lim, s, t) && Deref(known, same, m, s, t) == Deref(known, same, m0, s0, t0)
        invariant BlockSizes(s) + Size(t) <= n
        decreases t
      {
        StateSub(lim, s, t.blocks, t.t);
        PushAppend(t.blocks, s, Top);
        s, t := t.blocks + s, t.t;
      }
      if !t.Var? {
        if t.Atom? || t.Num? {
          s := [];
        }
        return;
      }
      if s == [] {
        return;
      }
      BlockShape(lim, s, t);
      var e;
      if t.v.local {
        e := EvaluateLocal(known, same, m, t.v, s[0]);
      } else {
        e := EvaluateBlock(known, same, m, t.v, s[0]);
      }
      VariableSteps(known, same, m, s, t.v, lim, e);
      m := m + |s[0].doms|;
      match e
      case Stuck => return;
      case Passed => s := s[1..];
      case Taken(k) => s, t := s[1..], s[0].rans[k];
    }
  }

  lemma BlockShape(lim: Limits, s: seq<Block>, t: Term)
    requires StateOk(lim, s, t) && s != []
    ensures DomsOk(s[0]) && |s[0].doms| == |s[0].rans|
  {
  }

  // ------------------------------------------------------------------
  // What is known of names, in terms of names
  // ------------------------------------------------------------------

  /** All object variables have names of their own. */
  function OwnName(v: ObVar): nat { 2 * v.id + if v.local then 1 else 0 }

  /** The naming gives different names to the pairs that are known, and to a local variable and any other. */
  ghost predicate Separates(name: Naming, known: Distinctness) {
    && (forall v, w :: (v, w) in known && v != w ==> name(v) != name(w))
    && forall v: ObVar, w: ObVar :: v.local && v != w ==> name(v) != name(w)
  }

  lemma RespectsIsSeparates(name: Naming, known: Distinctness)
    ensures Respects(name, known) <==> Separates(name, known)
  {
    if Respects(name, known) {
      forall v: ObVar, w: ObVar | ((v, w) in known || v.local) && v != w ensures name(v) != name(w) { assert DistinctFrom(known, v, w); }
    }
    if Separates(name, known) {
      forall v, w | DistinctFrom(known, v, w) ensures name(v) != name(w) {
        if v.local { assert name(v) != name(w); } else if w.local { assert name(w) != name(v); }
      }
    }
  }

  /** Two variables are known to be distinct exactly when every naming that separates what is known separates them. */
  lemma DistinctExactly(known: Distinctness, v: ObVar, w: ObVar)
    ensures DistinctFrom(known, v, w) || DistinctFrom(known, w, v) <==> forall name: Naming :: Separates(name, known) ==> name(v) != name(w)
  {
    if DistinctFrom(known, v, w) || DistinctFrom(known, w, v) {
      forall name: Naming | Separates(name, known) ensures name(v) != name(w) { RespectsIsSeparates(name, known); }
    } else {
      var name := OneName(v, w);
      assert Separates(name, known) && name(v) == name(w);
    }
  }

  /** v and w have one name, all others names of their own. */
  function OneName(v: ObVar, w: ObVar): Naming {
    u => if u == v then OwnName(w) else OwnName(u)
  }

  /** Two different ordinary variables of which nothing is known may have one name. */
  lemma MayBeOne(known: Distinctness, x: ObVar, y: ObVar)
    requires !x.local && !y.local && (x, y) !in known && (y, x) !in known
    ensures Separates(OneName(x, y), known) && OneName(x, y)(x) == OneName(x, y)(y)
  {
  }

  /** The meaning is kept for every naming that separates what is known. */
  lemma DerefKeeps(known: Distinctness, same: Same, m: nat, s: seq<Block>, t: Term, lim: Limits, name: Naming, mu: Binding, env: Env, d: nat)
    requires StateOk(lim, s, t) && SameIsEqual(same)
    requires forall v, w :: (v, w) in known && v != w ==> name(v) != name(w)
    requires forall v: ObVar, w: ObVar :: v.local && v != w ==> name(v) != name(w)
    ensures var r := Deref(known, same, m, s, t); Meaning(name, mu, s, t, env, d) == Meaning(name, mu, r.s, r.t, env, d)
  {
    DerefIs(known, same, m, s, t, lim);
    RespectsIsSeparates(name, known);
    hide Meaning, Deref, Respects, StateOk, SameIsEqual;
  }

  /** w may be the variable v, for all that is known. */
  predicate May(known: Distinctness, v: ObVar, w: ObVar) {
    w != v && !v.local && !w.local && (v, w) !in known
  }

  /** Pair k is the first for v, and the pairs before it whose domains may be v, and it, have the same range
      as the first of those. */
  ghost predicate TakesAt(known: Distinctness, same: Same, m: nat, v: ObVar, b: Block, k: nat) {
    && k < |b.doms| == |b.rans| && b.doms[k] == v && (forall i :: 0 <= i < k ==> b.doms[i] != v)
    && forall i, j :: 0 <= i < j <= k && FirstMay(known, v, b, i) && (j == k || May(known, v, b.doms[j])) ==> same(m + j, b.rans[i], b.rans[j])
  }

  ghost predicate FirstMay(known: Distinctness, v: ObVar, b: Block, i: nat) {
    i < |b.doms| && May(known, v, b.doms[i]) && forall h :: 0 <= h < i ==> !May(known, v, b.doms[h])
  }

  /** What the pairs before i have shown, and that none of them has stopped the search. */
  ghost predicate Passing(known: Distinctness, same: Same, m: nat, v: ObVar, b: Block, i: nat, first: int) {
    && |b.doms| == |b.rans| && i <= |b.doms| && -1 <= first < i
    && (forall k :: 0 <= k < i ==> b.doms[k] != v)
    && (if first == -1 then forall k :: 0 <= k < i ==> !May(known, v, b.doms[k]) else FirstMay(known, v, b, first))
    && (first != -1 ==> forall j :: first < j < i && May(known, v, b.doms[j]) ==> same(m + j, b.rans[first], b.rans[j]))
  }

  /** A pair is taken, or the block passed, exactly when it has to be. */
  lemma {:induction false} EvaluateExactly(known: Distinctness, same: Same, m: nat, v: ObVar, b: Block, i: nat, first: int)
    requires Passing(known, same, m, v, b, i, first)
    ensures var e := Evaluate(known, same, m, v, b, i, first);
            && (forall k: nat :: e == Taken(k) <==> TakesAt(known, same, m, v, b, k))
            && (e == Passed <==> forall w :: w in b.doms ==> w != v && !May(known, v, w))
    decreases |b.doms| - i
  {
    if i == |b.doms| {
      if first != -1 { assert b.doms[first] in b.doms; }
    } else if b.doms[i] == v {
      assert b.doms[i] in b.doms;
      TakenHere(known, same, m, v, b, i, first);
    } else if !May(known, v, b.doms[i]) {
      EvaluateExactly(known, same, m, v, b, i + 1, first);
    } else if first == -1 {
      EvaluateExactly(known, same, m, v, b, i + 1, i);
    } else if same(m + i, b.rans[first], b.rans[i]) {
      EvaluateExactly(known, same, m, v, b, i + 1, first);
    } else {
      assert b.doms[i] in b.doms;
      forall k: nat ensures !TakesAt(known, same, m, v, b, k) {}
    }
  }

  lemma TakenHere(known: Distinctness, same: Same, m: nat, v: ObVar, b: Block, i: nat, first: int)
    requires Passing(known, same, m, v, b, i, first) && i < |b.doms| && b.doms[i] == v
    ensures forall k: nat :: TakesAt(known, same, m, v, b, k) <==> k == i && (first == -1 || same(m + i, b.rans[first], b.rans[i]))
  {
    forall k: nat | k == i && (first == -1 || same(m + i, b.rans[first], b.rans[i])) ensures TakesAt(known, same, m, v, b, k) {
      forall h, j | 0 <= h < j <= k && FirstMay(known, v, b, h) && (j == k || May(known, v, b.doms[j]))
        ensures same(m + j, b.rans[h], b.rans[j])
      {
        assert h == first;
      }
    }
  }

  /** The block around an ordinary variable, from what is known of its domains: passed when all are known to be
      distinct from the variable; kept when one may be it and none is. */
  lemma BlockKnown(known: Distinctness, same: Same, m: nat, s: seq<Block>, v: ObVar)
    requires s != [] && |s[0].doms| == |s[0].rans|
    ensures (forall w :: w in s[0].doms ==> w != v && (v, w) in known) ==>
              Deref(known, same, m, s, Var(v)) == Deref(known, same, m + |s[0].doms|, s[1..], Var(v))
    ensures !v.local && v !in s[0].doms && (exists w :: w in s[0].doms && !w.local && (v, w) !in known) ==>
              Deref(known, same, m, s, Var(v)) == State(m + |s[0].doms|, s, Var(v))
  {
    hide Deref;
    EvaluateExactly(known, same, m, v, s[0], 0, -1);
    assert forall k: nat :: TakesAt(known, same, m, v, s[0], k) ==> s[0].doms[k] in s[0].doms;
    DerefVar(known, same, m, s, v);
  }

  lemma DerefVar(known: Distinctness, same: Same, m: nat, s: seq<Block>, v: ObVar)
    requires s != [] && |s[0].doms| == |s[0].rans|
    ensures var e, n := Evaluate(known, same, m, v, s[0], 0, -1), m + |s[0].doms|;
            Deref(known, same, m, s, Var(v)) ==
            match e
            case Stuck => State(n, s, Var(v))
            case Passed => Deref(known, same, n, s[1..], Var(v))
            case Taken(k) => Deref(known, same, n, s[1..], s[0].rans[k])
  {
  }

  /** The place of the first pair for v, or the number of pairs. */
  function PairOf(doms: seq<ObVar>, v: ObVar): (k: nat)
    ensures k <= |doms| && (k < |doms| ==> doms[k] == v) && forall i :: 0 <= i < k ==> doms[i] != v
  {
    if doms == [] || doms[0] == v then 0 else 1 + PairOf(doms[1..], v)
  }

  /** A block that begins with an ordinary variable is dropped from a local one.  That is right if and only if
      the variable is no domain of the block, or its range means what the variable means without the block. */
  lemma MixedBlock(known: Distinctness, s: seq<Block>, v: ObVar)
    requires s != [] && |s[0].doms| == |s[0].rans| > 0 && v.local && !s[0].doms[0].local
    ensures var k := PairOf(s[0].doms, v);
            SameMeaning(known, s, Var(v), s[1..], Var(v)) <==>
            k == |s[0].doms| || SameMeaning(known, s[1..], s[0].rans[k], s[1..], Var(v))
  {
    var k := PairOf(s[0].doms, v);
    if k == |s[0].doms| {
      forall w | w in s[0].doms ensures DistinctFrom(known, v, w) {}
      SamePass(known, s, v);
    } else {
      SameTake(known, s, v, k);
      hide SameMeaning;
      SameBack(known, s, Var(v), s[1..], s[0].rans[k]);
      if SameMeaning(known, s, Var(v), s[1..], Var(v)) {
        SameTrans(known, s[1..], s[0].rans[k], s, Var(v), s[1..], Var(v));
      }
      if SameMeaning(known, s[1..], s[0].rans[k], s[1..], Var(v)) {
        SameTrans(known, s, Var(v), s[1..], s[0].rans[k], s[1..], Var(v));
      }
    }
  }

  lemma SameBack(known: Distinctness, s: seq<Block>, t: Term, s': seq<Block>, t': Term)
    requires SameMeaning(known, s, t, s', t')
    ensures SameMeaning(known, s', t', s, t)
  {
    hide Meaning, Respects;
    forall name, mu, env, d | Respects(name, known) ensures Meaning(name, mu, s', t', env, d) == Meaning(name, mu, s, t, env, d) {
      assert Meaning(name, mu, s, t, env, d) == Meaning(name, mu, s', t', env, d);
    }
  }

  /** With an atom as its range it does not. */
  lemma MixedBlockLost(known: Distinctness, x: ObVar, v: ObVar, a: Term, b: string)
    requires !x.local && v.local
    ensures !SameMeaning(known, [Block([x, v], [a, Atom(b)])], Var(v), [], Var(v))
  {
    var block, mu := Block([x, v], [a, Atom(b)]), (m: nat) => Atom("");
    assert Respects(OwnName, known);
    PushHead(mu, [block], Top);
    VarInst(mu, v);
    LookSubst(OwnName, Block(block.doms, Insts(mu, block.rans)), Push(InstBlocks(mu, [block][1..]), Top), v, 0);
    assert Insts(mu, block.rans)[1] == Inst(mu, block.rans[1]);
    assert Meaning(OwnName, mu, [block], Var(v), Top, 0) == VAtom(b);
    assert Push(InstBlocks(mu, []), Top) == Top && Look(OwnName, Top, v, 0).VFree?;
    assert Den(OwnName, Top, Var(v), 0) == Look(OwnName, Top, v, 0);
  }
}
