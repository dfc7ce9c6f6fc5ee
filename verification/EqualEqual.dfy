/** == on terms with quantifiers and substitutions: the bound variables of two quantifiers are
    replaced by the same new constants, and the bodies are compared.
 */
module EqualEqual {
  import opened SubstitutedTerms
  import opened Dereference
  import opened Opening
  import opened Verdicts
  import opened Settled

  /** Two lists of the same length, element by element. */
  function Interleave(a: seq<ObVar>, b: seq<ObVar>): seq<ObVar>
    requires |a| == |b|
  {
    if a == [] then [] else Interleave(a[..|a| - 1], b[..|b| - 1]) + [a[|a| - 1], b[|b| - 1]]
  }

  lemma InterleaveStep(a: seq<ObVar>, b: seq<ObVar>, i: nat)
    requires i < |a| && i < |b|
    ensures Interleave(a[..i + 1], b[..i + 1]) == Interleave(a[..i], b[..i]) + [a[i], b[i]]
  {
    assert a[..i + 1][..i] == a[..i] && b[..i + 1][..i] == b[..i];
  }

  lemma {:induction false} InterleaveLength(a: seq<ObVar>, b: seq<ObVar>)
    requires |a| == |b|
    ensures |Interleave(a, b)| == 2 * |a|
  {
    if a != [] { InterleaveLength(a[..|a| - 1], b[..|b| - 1]); }
  }

  lemma QBlockSize(vars: seq<ObVar>, n: nat, s: seq<Block>)
    requires vars != []
    ensures BlockSizes([QBlock(vars, n)] + s) == 1 + 6 * |vars| + BlockSizes(s)
  {
    assert ([QBlock(vars, n)] + s)[1..] == s;
    forall i | 0 <= i < |vars| ensures Size(QBlock(vars, n).rans[i]) == 5 { QConstSize(n + i); }
    SizesAll(QBlock(vars, n).rans);
  }

  lemma QConstSize(n: nat)
    ensures Size(QConst(n)) == 5
  {
    var args := [Atom(QUANT), Num(n)];
    assert args[1..] == [Num(n)] && args[1..][1..] == [];
    assert Sizes([Num(n)]) == 2;
    assert Sizes(args) == 4;
  }

  lemma {:induction false} SizesAll(ts: seq<Term>)
    requires forall i :: 0 <= i < |ts| ==> Size(ts[i]) == 5
    ensures Sizes(ts) == 6 * |ts|
  {
    if ts != [] { SizesAll(ts[1..]); }
  }

  lemma {:induction false} QConstsOk(lim: Limits, vars: seq<ObVar>, n: nat, i: nat)
    requires n + |vars| <= lim.quants && i <= |vars|
    ensures Ins(lim, QBlock(vars, n).rans[i..])
    decreases |vars| - i
  {
    var rans := QBlock(vars, n).rans;
    if i < |vars| {
      assert rans[i..][1..] == rans[i + 1..];
      QConstsOk(lim, vars, n, i + 1);
      assert In(lim, QConst(n + i));
    }
  }

  /** The first i pairs of the block. */
  function QBlockTo(vars: seq<ObVar>, n: nat, i: nat): Block
    requires i <= |vars|
  {
    Block(QBlock(vars, n).doms[..i], QBlock(vars, n).rans[..i])
  }

  lemma QBlockStep(vars: seq<ObVar>, n: nat, i: nat)
    requires i < |vars|
    ensures QBlockTo(vars, n, i + 1) == Block(QBlockTo(vars, n, i).doms + [vars[|vars| - 1 - i]], QBlockTo(vars, n, i).rans + [QConst(n + i)])
  {
  }

  lemma QBlockLength(vars: seq<ObVar>, n: nat)
    ensures QBlockTo(vars, n, 0) == Block([], []) && QBlockTo(vars, n, |vars|) == QBlock(vars, n)
  {
  }

  lemma QBlockDoms(vars: seq<ObVar>, n: nat, known: iset<ObVar>)
    requires vars != [] && Homogeneous(vars) && AllIn(vars, known)
    ensures DomsOk(QBlock(vars, n)) && AllIn(QBlock(vars, n).doms, known)
  {
    assert forall v :: v in QBlock(vars, n).doms ==> v in vars;
  }

  /** The body of a quantified term under new constants is well-formed, and smaller. */
  lemma BodyOk(p: PrologValue, n: nat, metas: Metas, vars: iset<ObVar>)
    requires p.term.Quant? && ValueOk(Limits(n, false, metas, vars), p)
    ensures ValueOk(Limits(n + |p.term.vars|, false, metas, vars), BodyOf(p, n)) && Measure(BodyOf(p, n)) < Measure(p)
  {
    var bound, s, lim := p.term.vars, p.sub, Limits(n + |p.term.vars|, false, metas, vars);
    ValueMono(Limits(n, false, metas, vars), lim, p);
    var l := lim.UnderAny(s);
    assert l.Under() == lim.Under();
    assert In(l.UnderAny(bound), p.term.body);
    if bound != [] {
      QBlockSize(bound, n, s);
      QConstsOk(lim.Under(), bound, n, 0);
      QBlockDoms(bound, n, vars);
      assert QBlock(bound, n).rans[0..] == QBlock(bound, n).rans;
      PushBlockOk(lim.Under(), QBlock(bound, n), s);
    }
  }

  lemma PushBlockOk(lim: Limits, b: Block, s: seq<Block>)
    requires DomsOk(b) && AllIn(b.doms, lim.vars) && Ins(lim, b.rans) && BlocksOk(lim, s)
    ensures BlocksOk(lim, [b] + s)
  {
    assert ([b] + s)[1..] == s;
  }

  /** With distinctness known everywhere no variable is left under a substitution. */
  lemma StuckVar(known: Distinctness, lim: Limits, p: PrologValue)
    requires Stopped(known, p.sub, p.term) && !Evaluated(p) && ValueOk(lim, p)
    ensures !Total(known, lim.vars)
  {
    assert AllIn(p.sub[0].doms, lim.vars);
  }

  lemma QuantifierApart(known: Distinctness, vars: iset<ObVar>, p: PrologValue, q: PrologValue, lim: Limits)
    requires !lim.free && p.term.Quant? && q.term.Quant? && ValueOk(lim, p) && ValueOk(lim, q)
    requires Apart(known, vars, p.(term := p.term.q), q.(term := q.term.q))
    ensures Apart(known, vars, p, q)
  {
    hide Apart;
    QuantOk(p, lim);
    QuantOk(q, lim);
    if |p.term.tys| != |q.term.tys| { RightLengths(known, vars, p, q); } else { QuantApart(known, vars, p, q, lim); }
  }

  /** Bound variables at the same place, one with a type and one without, or with types apart. */
  lemma BinderApart(known: Distinctness, vars: iset<ObVar>, p: PrologValue, q: PrologValue, lim: Limits, i: nat)
    requires !lim.free && p.term.Quant? && q.term.Quant? && ValueOk(lim, p) && ValueOk(lim, q)
    requires i < |p.term.tys| && i < |q.term.tys| && i < |p.term.typed| && i < |q.term.typed|
    requires p.term.typed[i] != q.term.typed[i]
             || Apart(known, vars, PrologValue(p.sub, p.term.tys[i]), PrologValue(q.sub, q.term.tys[i]))
    ensures Apart(known, vars, p, q)
  {
    hide Apart;
    QuantOk(p, lim);
    QuantOk(q, lim);
    if |p.term.tys| != |q.term.tys| { RightLengths(known, vars, p, q); } else { QuantApart(known, vars, p, q, lim); }
  }

  lemma NoBinders(vars: seq<ObVar>, vars': seq<ObVar>)
    requires |vars| == |vars'|
    ensures vars == [] ==> Interleave(vars, vars') == []
  {
  }

  lemma OpenedIs(vars: seq<ObVar>, n: nat, s: seq<Block>)
    ensures Opened(vars, n, s) == if vars == [] then s else [QBlock(vars, n)] + s
  {
  }

  lemma ConsOk(p: PrologValue, lim: Limits)
    requires p.term.Cons? && ValueOk(lim, p)
    ensures ValueOk(lim, p.(term := p.term.head)) && ValueOk(lim, p.(term := p.term.tail))
    ensures Measure(p.(term := p.term.head)) < Measure(p) && Measure(p.(term := p.term.tail)) < Measure(p)
  {
    assert In(lim.UnderAny(p.sub), p.term.head) && In(lim.UnderAny(p.sub), p.term.tail);
  }

  lemma ArgOk(p: PrologValue, lim: Limits, i: nat)
    requires p.term.Struct? && ValueOk(lim, p) && i < |p.term.args|
    ensures ValueOk(lim, PrologValue(p.sub, p.term.args[i])) && Measure(PrologValue(p.sub, p.term.args[i])) < Measure(p)
  {
    SizeAt(p.term.args, i);
    if !IsQuant(p.term.args, lim.quants) { InAt(lim.UnderAny(p.sub), p.term.args, i); }
  }

  lemma QuantOk(p: PrologValue, lim: Limits)
    requires p.term.Quant? && ValueOk(lim, p)
    ensures ValueOk(lim, p.(term := p.term.q)) && Measure(p.(term := p.term.q)) < Measure(p)
    ensures BindersOk(p.term.vars, p.term.typed, p.term.tys)
    ensures forall i :: 0 <= i < |p.term.tys| ==>
              ValueOk(lim, PrologValue(p.sub, p.term.tys[i])) && Measure(PrologValue(p.sub, p.term.tys[i])) < Measure(p)
  {
    assert In(lim.UnderAny(p.sub), p.term.q);
    forall i | 0 <= i < |p.term.tys|
      ensures ValueOk(lim, PrologValue(p.sub, p.term.tys[i])) && Measure(PrologValue(p.sub, p.term.tys[i])) < Measure(p)
    {
      SizeAt(p.term.tys, i);
      InAt(lim.UnderAny(p.sub), p.term.tys, i);
    }
  }

  class Thread {
    const known: Distinctness
    const same: Same                                      // the same heap object, at a given moment
    const sameSubs: (nat, seq<Block>, seq<Block>) -> bool // the same for lists of substitutions
    var moment: nat
    var pushDownStack: seq<ObVar>
    var counter: nat

    constructor (known: Distinctness, same: Same, sameSubs: (nat, seq<Block>, seq<Block>) -> bool)
      ensures this.known == known && this.same == same && this.sameSubs == sameSubs
      ensures pushDownStack == [] && counter == 0
    {
      this.known, this.same, this.sameSubs := known, same, sameSubs;
      pushDownStack, counter, moment := [], 0, 0;
    }

    /** Identical objects are equal terms; object variables and atoms are single objects. */
    ghost predicate Identity() {
      && SameIsEqual(same) && (forall m, x, y :: sameSubs(m, x, y) ==> x == y)
      && (forall m, a :: same(m, Atom(a), Atom(a))) && forall m :: sameSubs(m, [], [])
    }

    /** prologValueDereference */
    method PrologValueDereference(p: PrologValue, ghost lim: Limits) returns (q: PrologValue)
      requires Identity() && ValueOk(lim, p)
      modifies this`moment
      ensures ValueOk(lim, q) && Stopped(known, q.sub, q.term) && Measure(q) <= Measure(p)
      ensures SameMeaning(known, p.sub, p.term, q.sub, q.term) && DereferencesTo(known, same, p, q)
    {
      var s, t;
      ghost var m := moment;
      moment, s, t := SubstitutionDereference(known, same, moment, p.sub, p.term, lim);
      q := PrologValue(s, t);
      DereferencedAt(known, same, m, p, q);
    }

    /** Dereference two parts and compare them. */
    method EqualParts(p0: PrologValue, q0: PrologValue, ghost metas: Metas, ghost vars: iset<ObVar>)
      returns (r: Verdict, ghost path: seq<Pair>)
      requires Identity() && ValueOk(Limits(counter, false, metas, vars), p0) && ValueOk(Limits(counter, false, metas, vars), q0)
      modifies this
      ensures pushDownStack == old(pushDownStack) && counter >= old(counter)
      ensures Right(known, vars, p0, q0, r) && (Total(known, vars) && metas != Anywhere ==> r != Unknown)
      ensures r == Unknown ==> PartsLead(known, same, p0, q0, path)
      decreases Measure(p0), 3
    {
      hide ValueOk, Measure, Right, Total, SameMeaning, Identity, Stopped, DereferencesTo, Leads, Plain, Plains;
      var p := PrologValueDereference(p0, Limits(counter, false, metas, vars));
      var q := PrologValueDereference(q0, Limits(counter, false, metas, vars));
      r, path := EqualEqual(p, q, metas, vars);
      RightDereferenced(known, vars, p0, q0, p, q, r);
    }

    /** Atoms, numbers and variables. */
    method EqualSimple(p: PrologValue, q: PrologValue, ghost metas: Metas, ghost vars: iset<ObVar>) returns (r: Verdict)
      requires Identity() && ValueOk(Limits(counter, false, metas, vars), p) && ValueOk(Limits(counter, false, metas, vars), q)
      requires Stopped(known, p.sub, p.term) && Stopped(known, q.sub, q.term) && Tag(p.term) == Tag(q.term)
      requires !p.term.Cons? && !p.term.Struct? && !p.term.Quant? && (p.term.Atom? ==> p.term != q.term)
      ensures Right(known, vars, p, q, r) && (Total(known, vars) && metas != Anywhere ==> r != Unknown)
      ensures r == if LeftUnder(p, q) then Unknown else if p.term == q.term then Equal else Different
    {
      match p.term
      case Num(n) =>
        if n == q.term.n {
          ConstantsAgree(known, p, q);
          return Equal;
        }
        SimpleApart(known, vars, p, q);
        return Different;
      case Atom(_) =>
        SimpleApart(known, vars, p, q);
        return Different;
      case Meta(m) =>
        if m != q.term.m {
          SimpleApart(known, vars, p, q);
          return Different;
        }
        if p.sub != [] || q.sub != [] {
          return Unknown;
        }
        ConstantsAgree(known, p, q);
        return Equal;
      case Var(v) =>
        if p.sub != [] || q.sub != [] {
          return Unknown;
        }
        if v == q.term.v {
          ConstantsAgree(known, p, q);
          return Equal;
        }
        SimpleApart(known, vars, p, q);
        return Different;
    }

    method EqualConses(p: PrologValue, q: PrologValue, ghost metas: Metas, ghost vars: iset<ObVar>)
      returns (r: Verdict, ghost path: seq<Pair>)
      requires Identity() && ValueOk(Limits(counter, false, metas, vars), p) && ValueOk(Limits(counter, false, metas, vars), q)
      requires p.term.Cons? && q.term.Cons?
      modifies this
      ensures pushDownStack == old(pushDownStack) && counter >= old(counter)
      ensures Right(known, vars, p, q, r) && (Total(known, vars) && metas != Anywhere ==> r != Unknown)
      ensures r == Unknown ==> LeadsFrom(known, same, p, q, path)
      decreases Measure(p), 1
    {
      hide ValueOk, Measure, Right, Total, Identity, PartsLead, LeadsFrom;
      ConsOk(p, Limits(counter, false, metas, vars));
      ConsOk(q, Limits(counter, false, metas, vars));
      r, path := EqualParts(p.(term := p.term.head), q.(term := q.term.head), metas, vars);
      path := FromParts(p, q, p.(term := p.term.head), q.(term := q.term.head), r, path);
      if r != Equal {
        RightCons(known, vars, p, q, r, Unknown);
        return;
      }
      ValueMono(Limits(old(counter), false, metas, vars), Limits(counter, false, metas, vars), p);
      ValueMono(Limits(old(counter), false, metas, vars), Limits(counter, false, metas, vars), q);
      ConsOk(p, Limits(counter, false, metas, vars));
      ConsOk(q, Limits(counter, false, metas, vars));
      r, path := EqualParts(p.(term := p.term.tail), q.(term := q.term.tail), metas, vars);
      path := FromParts(p, q, p.(term := p.term.tail), q.(term := q.term.tail), r, path);
      RightCons(known, vars, p, q, Equal, r);
    }

    method EqualStructures(p: PrologValue, q: PrologValue, ghost metas: Metas, ghost vars: iset<ObVar>)
      returns (r: Verdict, ghost path: seq<Pair>)
      requires Identity() && ValueOk(Limits(counter, false, metas, vars), p) && ValueOk(Limits(counter, false, metas, vars), q)
      requires p.term.Struct? && q.term.Struct?
      modifies this
      ensures pushDownStack == old(pushDownStack) && counter >= old(counter)
      ensures Right(known, vars, p, q, r) && (Total(known, vars) && metas != Anywhere ==> r != Unknown)
      ensures r == Unknown ==> LeadsFrom(known, same, p, q, path)
      decreases Measure(p), 1
    {
      hide ValueOk, Measure, Agree, Apart, Total, Identity, PartsLead, LeadsFrom;
      var us, vs := p.term.args, q.term.args;
      RightStruct(known, vars, p, q);
      if |us| != |vs| {
        return Different, [];
      }
      for i := 0 to |us|
        invariant pushDownStack == old(pushDownStack) && counter >= old(counter)
        invariant ArgsAgree(known, p.sub, us, q.sub, vs, i)
      {
        ValueMono(Limits(old(counter), false, metas, vars), Limits(counter, false, metas, vars), p);
        ValueMono(Limits(old(counter), false, metas, vars), Limits(counter, false, metas, vars), q);
        ArgOk(p, Limits(counter, false, metas, vars), i);
        ArgOk(q, Limits(counter, false, metas, vars), i);
        r, path := EqualParts(PrologValue(p.sub, us[i]), PrologValue(q.sub, vs[i]), metas, vars);
        path := FromParts(p, q, PrologValue(p.sub, us[i]), PrologValue(q.sub, vs[i]), r, path);
        if r != Equal {
          return;
        }
      }
      return Equal, [];
    }

    method EqualQuantifiers(p: PrologValue, q: PrologValue, ghost metas: Metas, ghost vars: iset<ObVar>)
      returns (r: Verdict, ghost path: seq<Pair>)
      requires Identity() && ValueOk(Limits(counter, false, metas, vars), p) && ValueOk(Limits(counter, false, metas, vars), q)
      requires p.term.Quant? && q.term.Quant?
      modifies this
      ensures pushDownStack == old(pushDownStack) && counter >= old(counter)
      ensures Right(known, vars, p, q, r) && (Total(known, vars) && metas != Anywhere ==> r != Unknown)
      ensures r == Unknown ==> LeadsFrom(known, same, p, q, path)
      decreases Measure(p), 1
    {
      hide ValueOk, Measure, Agree, Apart, Total, Identity, Opened, ArgsAgree, Interleave, BindersOk, QBlock, PartsLead, LeadsFrom;
      ghost var base, n0 := pushDownStack, counter;
      QuantOk(p, Limits(counter, false, metas, vars));
      QuantOk(q, Limits(counter, false, metas, vars));
      r, path := EqualParts(p.(term := p.term.q), q.(term := q.term.q), metas, vars);
      path := FromParts(p, q, p.(term := p.term.q), q.(term := q.term.q), r, path);
      if r != Equal {
        if r == Different { QuantifierApart(known, vars, p, q, Limits(n0, false, metas, vars)); }
        return;
      }
      ValueMono(Limits(n0, false, metas, vars), Limits(counter, false, metas, vars), p);
      ValueMono(Limits(n0, false, metas, vars), Limits(counter, false, metas, vars), q);
      var oldSize := |pushDownStack|;
      ghost var n1 := counter;
      r, path := EqualBinders(p, q, metas, vars);
      if r != Equal {
        return;
      }
      ValueMono(Limits(n1, false, metas, vars), Limits(counter, false, metas, vars), p);
      ValueMono(Limits(n1, false, metas, vars), Limits(counter, false, metas, vars), q);
      InterleaveLength(p.term.vars, q.term.vars);
      var n := (|pushDownStack| - oldSize) / 2;
      var sub1, sub2 := p.sub, q.sub;
      ghost var n2 := counter;
      BodyOk(p, n2, metas, vars);
      BodyOk(q, n2, metas, vars);
      OpenedIs(p.term.vars, n2, p.sub);
      OpenedIs(q.term.vars, n2, q.sub);
      if n == 0 {
        NoBinders(p.term.vars, q.term.vars);
      } else {
        var block1, block2 := NewBlocks(n, p.term.vars, q.term.vars, base);
        sub1, sub2 := [block1] + p.sub, [block2] + q.sub;
      }
      assert PrologValue(sub1, p.term.body) == BodyOf(p, n2) && PrologValue(sub2, q.term.body) == BodyOf(q, n2);
      r, path := EqualParts(PrologValue(sub1, p.term.body), PrologValue(sub2, q.term.body), metas, vars);
      path := FromParts(p, q, BodyOf(p, n2), BodyOf(q, n2), r, path);
      if r == Equal {
        QuantAgree(known, p, q, Limits(n2, false, metas, vars));
      } else if r == Different {
        QuantApart(known, vars, p, q, Limits(n2, false, metas, vars));
      }
    }

    /** The bound variables of two quantifiers go onto the stack in pairs, and the types of those
        that have one are compared. */
    method EqualBinders(p: PrologValue, q: PrologValue, ghost metas: Metas, ghost vars: iset<ObVar>)
      returns (r: Verdict, ghost path: seq<Pair>)
      requires Identity() && ValueOk(Limits(counter, false, metas, vars), p) && ValueOk(Limits(counter, false, metas, vars), q)
      requires p.term.Quant? && q.term.Quant?
      modifies this
      ensures counter >= old(counter)
      ensures r != Equal ==> pushDownStack == old(pushDownStack)
      ensures r == Equal ==>
                && |p.term.vars| == |q.term.vars| && p.term.typed == q.term.typed && |p.term.tys| == |q.term.tys|
                && ArgsAgree(known, p.sub, p.term.tys, q.sub, q.term.tys, |p.term.tys|)
                && pushDownStack == old(pushDownStack) + Interleave(p.term.vars, q.term.vars)
      ensures (r == Different ==> Apart(known, vars, p, q)) && (Total(known, vars) && metas != Anywhere ==> r != Unknown)
      ensures r == Unknown ==> LeadsFrom(known, same, p, q, path)
      decreases Measure(p), 0
    {
      hide ValueOk, Measure, Agree, Apart, Total, Identity, Interleave, DistinctFrom, Ok, PartsLead, LeadsFrom;
      QuantOk(p, Limits(counter, false, metas, vars));
      QuantOk(q, Limits(counter, false, metas, vars));
      var boundvars1, boundvars2, oldSize := p.term.vars, q.term.vars, |pushDownStack|;
      var i := 0;
      NoBinders(boundvars1[..0], boundvars2[..0]);
      while i < |boundvars1| && i < |boundvars2|
        invariant i <= |boundvars1| && i <= |boundvars2| && counter >= old(counter)
        invariant pushDownStack == old(pushDownStack) + Interleave(boundvars1[..i], boundvars2[..i])
        invariant p.term.typed[..i] == q.term.typed[..i]
        invariant ArgsAgree(known, p.sub, p.term.tys, q.sub, q.term.tys, i)
        decreases |boundvars1| - i
      {
        if p.term.typed[i] != q.term.typed[i] {
          pushDownStack := pushDownStack[..oldSize];
          BinderApart(known, vars, p, q, Limits(old(counter), false, metas, vars), i);
          return Different, [];
        }
        InterleaveStep(boundvars1, boundvars2, i);
        pushDownStack := pushDownStack + [boundvars1[i], boundvars2[i]];
        if p.term.typed[i] {
          ValueMono(Limits(old(counter), false, metas, vars), Limits(counter, false, metas, vars), p);
          ValueMono(Limits(old(counter), false, metas, vars), Limits(counter, false, metas, vars), q);
          QuantOk(p, Limits(counter, false, metas, vars));
          QuantOk(q, Limits(counter, false, metas, vars));
          r, path := EqualParts(PrologValue(p.sub, p.term.tys[i]), PrologValue(q.sub, q.term.tys[i]), metas, vars);
          path := FromParts(p, q, PrologValue(p.sub, p.term.tys[i]), PrologValue(q.sub, q.term.tys[i]), r, path);
          if r != Equal {
            pushDownStack := pushDownStack[..oldSize];
            if r == Different { BinderApart(known, vars, p, q, Limits(old(counter), false, metas, vars), i); }
            return;
          }
        } else {
          ConstantsAgree(known, PrologValue(p.sub, p.term.tys[i]), PrologValue(q.sub, q.term.tys[i]));
        }
        i := i + 1;
      }
      if |boundvars1| != |boundvars2| {
        pushDownStack := pushDownStack[..oldSize];
        RightLengths(known, vars, p, q);
        return Different, [];
      }
      assert boundvars1[..i] == boundvars1 && boundvars2[..i] == boundvars2;
      assert p.term.typed[..i] == p.term.typed && q.term.typed[..i] == q.term.typed;
      return Equal, [];
    }

    /** The substitution blocks for two bodies: each pair of bound variables, last pair first, gets
        the same new constant. */
    method NewBlocks(n: nat, ghost vars1: seq<ObVar>, ghost vars2: seq<ObVar>, ghost base: seq<ObVar>)
      returns (block1: Block, block2: Block)
      requires |vars1| == |vars2| == n && pushDownStack == base + Interleave(vars1, vars2)
      modifies this
      ensures pushDownStack == base && counter == old(counter) + n
      ensures block1 == QBlock(vars1, old(counter)) && block2 == QBlock(vars2, old(counter))
    {
      hide Interleave, QBlock, QBlockTo, QConst;
      block1, block2 := Block([], []), Block([], []);
      QBlockLength(vars1, counter);
      QBlockLength(vars2, counter);
      ghost var n0 := counter;
      assert vars1[..n] == vars1 && vars2[..n] == vars2;
      for i := 0 to n
        invariant counter == n0 + i && pushDownStack == base + Interleave(vars1[..n - i], vars2[..n - i])
        invariant block1 == QBlockTo(vars1, n0, i)
        invariant block2 == QBlockTo(vars2, n0, i)
      {
        InterleaveStep(vars1, vars2, n - 1 - i);
        QBlockStep(vars1, n0, i);
        QBlockStep(vars2, n0, i);
        var o2 := pushDownStack[|pushDownStack| - 1];
        var o1 := pushDownStack[|pushDownStack| - 2];
        pushDownStack := pushDownStack[..|pushDownStack| - 2];
        var ranstruct := QConst(counter);
        counter := counter + 1;
        block1 := Block(block1.doms + [o1], block1.rans + [ranstruct]);
        block2 := Block(block2.doms + [o2], block2.rans + [ranstruct]);
      }
      NoBinders(vars1[..0], vars2[..0]);
    }

    /** equalEqual.  Undecided is only what leads to a variable left under a substitution. */
    method EqualEqual(p: PrologValue, q: PrologValue, ghost metas: Metas, ghost vars: iset<ObVar>)
      returns (r: Verdict, ghost path: seq<Pair>)
      requires Identity() && ValueOk(Limits(counter, false, metas, vars), p) && ValueOk(Limits(counter, false, metas, vars), q)
      requires Stopped(known, p.sub, p.term) && Stopped(known, q.sub, q.term)
      modifies this
      ensures pushDownStack == old(pushDownStack) && counter >= old(counter)
      ensures Right(known, vars, p, q, r) && (Total(known, vars) && metas != Anywhere ==> r != Unknown)
      ensures r == Unknown ==> LeadsFrom(known, same, p, q, path)
      ensures PlainPair(Pair(p, q)) ==> r == if p.term == q.term then Equal else Different
      decreases Measure(p), 2
    {
      hide ValueOk, Measure, Agree, Apart, Total, DistinctFrom, Ok, LeadsFrom, Leads, PlainPair;
      path := [Pair(p, q)];
      if LeftUnder(p, q) { LeadsHere(known, same, p, q); }
      if Tag(p.term) != Tag(q.term) {
        // A variable left under a substitution may still turn out equal; the program answers false.
        if Evaluated(p) && Evaluated(q) {
          TagsApart(known, vars, p, q);
          r := Different;
        } else {
          StuckVar(known, Limits(counter, false, metas, vars), if Evaluated(p) then q else p);
          r := Unknown;
        }
      } else {
        moment := moment + 1;
        if same(moment, p.term, q.term) && sameSubs(moment, p.sub, q.sub) {
          RightSame(known, p, q);
          r := Equal;
        } else {
          match p.term
          case Cons(_, _) => r, path := EqualConses(p, q, metas, vars);
          case Struct(_) => r, path := EqualStructures(p, q, metas, vars);
          case Quant(_, _, _, _, _) => r, path := EqualQuantifiers(p, q, metas, vars);
          case _ => r := EqualSimple(p, q, metas, vars);
        }
      }
      if PlainPair(Pair(p, q)) { PlainDecided(known, same, vars, p, q, r, path); }
    }

    /** What parts lead to, the whole does. */
    lemma FromParts(p: PrologValue, q: PrologValue, p0: PrologValue, q0: PrologValue, r: Verdict, path0: seq<Pair>)
      returns (path: seq<Pair>)
      requires Parts(p, q, p0, q0) && (r == Unknown ==> PartsLead(known, same, p0, q0, path0))
      ensures r == Unknown ==> LeadsFrom(known, same, p, q, path)
    {
      path := [Pair(p, q)] + path0;
      if r == Unknown { Longer(known, same, p, q, p0, q0, path0); }
    }
  }
}
