/** Replacing the bound variables of a quantifier by new constants $$quant(n): on terms it is a
    substitution, on meanings it is a replacement that loses nothing as long as the constants are
    new.
 */
module Opening {
  import opened SubstitutedTerms
  import opened Dereference

  function QConst(n: nat): Term { Struct([Atom(QUANT), Num(n)]) }

  function QValue(n: nat): Value { VStruct([VAtom(QUANT), VNum(n)]) }

  function Reverse(vars: seq<ObVar>): (r: seq<ObVar>)
    ensures |r| == |vars| && forall i :: 0 <= i < |r| ==> r[i] == vars[|vars| - 1 - i]
  {
    seq(|vars|, i requires 0 <= i < |vars| => vars[|vars| - 1 - i])
  }

  /** The substitution block for the bound variables vars: the last one gets the first constant. */
  function QBlock(vars: seq<ObVar>, n: nat): (b: Block)
    ensures |b.doms| == |b.rans| == |vars|
    ensures forall i :: 0 <= i < |vars| ==> b.doms[i] == vars[|vars| - 1 - i] && b.rans[i] == QConst(n + i)
  {
    Block(Reverse(vars), seq(|vars|, i requires 0 <= i < |vars| => QConst(n + i)))
  }

  /** In env, the quantifier at the given level is replaced by the substitution. */
  function OpenEnv(env: Env, level: nat, n: nat): Env {
    match env
    case Top => Top
    case Subst(b, rest) => Subst(b, OpenEnv(rest, level, n))
    case Bind(vars, l, rest) =>
      if l == level then Subst(QBlock(vars, n), OpenEnv(rest, level, n)) else Bind(vars, l, OpenEnv(rest, level, n))
  }

  /** The k variables bound at the given level are replaced by constants. */
  function Open(v: Value, level: nat, k: nat, n: nat): Value {
    match v
    case VBound(l, j) => if l == level && j < k then QValue(n + (k - 1 - j)) else v
    case VCons(h, t) => VCons(Open(h, level, k, n), Open(t, level, k, n))
    case VStruct(args) => VStruct(Opens(args, level, k, n))
    case VQuant(q, typed, tys, body) => VQuant(Open(q, level, k, n), typed, Opens(tys, level, k, n), Open(body, level, k, n))
    case _ => v
  }

  function Opens(vs: seq<Value>, level: nat, k: nat, n: nat): (us: seq<Value>)
    ensures |us| == |vs| && forall i :: 0 <= i < |vs| ==> us[i] == Open(vs[i], level, k, n)
  {
    if vs == [] then [] else [Open(vs[0], level, k, n)] + Opens(vs[1..], level, k, n)
  }

  /** Quantifiers at the given level bind k variables. */
  predicate LevelOk(env: Env, level: nat, k: nat) {
    match env
    case Top => true
    case Subst(_, rest) => LevelOk(rest, level, k)
    case Bind(vars, l, rest) => (l == level ==> |vars| == k) && LevelOk(rest, level, k)
  }

  lemma {:induction false} PushLevel(bs: seq<Block>, env: Env, level: nat, k: nat, n: nat)
    ensures LevelOk(env, level, k) ==> LevelOk(Push(bs, env), level, k)
    ensures OpenEnv(Push(bs, env), level, n) == Push(bs, OpenEnv(env, level, n))
  {
    if bs != [] { PushLevel(bs[1..], env, level, k, n); }
  }

  lemma UnderLevel(vars: seq<ObVar>, d: nat, env: Env, level: nat, k: nat, n: nat)
    requires LevelOk(env, level, k) && d != level
    ensures LevelOk(Under(vars, d, env), level, k)
    ensures OpenEnv(Under(vars, d, env), level, n) == Under(vars, d, OpenEnv(env, level, n))
  {
  }

  /** Where the constants are found. */
  lemma FirstInReverse(name: Naming, vars: seq<ObVar>, v: ObVar)
    ensures var i, j := Last(name, vars, v), First(name, Reverse(vars), v);
            if i < |vars| then j == |vars| - 1 - i else j == |vars|
  {
    var i, j, r := Last(name, vars, v), First(name, Reverse(vars), v), Reverse(vars);
    if i < |vars| {
      assert r[|vars| - 1 - i] == vars[i];
      if j < |vars| { assert r[j] == vars[|vars| - 1 - j]; }
    } else {
      forall m | 0 <= m < |r| ensures name(r[m]) != name(v) { assert r[m] == vars[|vars| - 1 - m]; }
    }
  }

  lemma QConstMeans(name: Naming, env: Env, n: nat, d: nat)
    ensures Den(name, env, QConst(n), d) == QValue(n)
  {
    var args := [Atom(QUANT), Num(n)];
    assert args[1..] == [Num(n)] && args[1..][1..] == [];
    assert Dens(name, env, [Num(n)], d) == [VNum(n)];
    assert Dens(name, env, args, d) == [VAtom(QUANT)] + [VNum(n)];
  }

  /** Opening the meaning of a term is evaluating the term with the constants substituted. */
  lemma {:induction false} OpenMeans(name: Naming, env: Env, t: Term, d: nat, level: nat, k: nat, n: nat)
    requires LevelOk(env, level, k) && d > level
    ensures Den(name, OpenEnv(env, level, n), t, d) == Open(Den(name, env, t, d), level, k, n)
    decreases Weight(env) + Size(t), 1
  {
    hide LevelOk, OpenEnv, Look, Under, Push, Opens;
    match t
    case Var(v) => OpenLook(name, env, v, d, level, k, n);
    case Cons(h, tl) =>
      OpenMeans(name, env, h, d, level, k, n);
      OpenMeans(name, env, tl, d, level, k, n);
    case Struct(args) => OpensMean(name, env, args, d, level, k, n);
    case Quant(q, vars, typed, tys, body) =>
      OpenMeans(name, env, q, d, level, k, n);
      OpensMean(name, env, tys, d, level, k, n);
      UnderLevel(vars, d, env, level, k, n);
      OpenMeans(name, Under(vars, d, env), body, d + 1, level, k, n);
    case Sub(blocks, u) =>
      PushWeight(blocks, env);
      PushLevel(blocks, env, level, k, n);
      OpenMeans(name, Push(blocks, env), u, d, level, k, n);
    case _ =>
  }

  lemma {:induction false} OpensMean(name: Naming, env: Env, ts: seq<Term>, d: nat, level: nat, k: nat, n: nat)
    requires LevelOk(env, level, k) && d > level
    ensures Dens(name, OpenEnv(env, level, n), ts, d) == Opens(Dens(name, env, ts, d), level, k, n)
    decreases Weight(env) + Sizes(ts), 1
  {
    if ts != [] {
      OpenMeans(name, env, ts[0], d, level, k, n);
      OpensMean(name, env, ts[1..], d, level, k, n);
    }
  }

  lemma {:induction false} OpenLook(name: Naming, env: Env, v: ObVar, d: nat, level: nat, k: nat, n: nat)
    requires LevelOk(env, level, k) && d > level
    ensures Look(name, OpenEnv(env, level, n), v, d) == Open(Look(name, env, v, d), level, k, n)
    decreases Weight(env), 2
  {
    hide First, Last, Den, QBlock;
    match env
    case Top =>
    case Subst(b, rest) =>
      var i := First(name, b.doms, v);
      if i < |b.doms| && i < |b.rans| {
        SizeAt(b.rans, i);
        OpenMeans(name, rest, b.rans[i], d, level, k, n);
      } else {
        OpenLook(name, rest, v, d, level, k, n);
      }
    case Bind(vars, l, rest) =>
      if l == level { LookQBlock(name, vars, OpenEnv(rest, level, n), v, d, n); }
      if Last(name, vars, v) == |vars| { OpenLook(name, rest, v, d, level, k, n); }
  }

  /** The substituted constant of a bound variable. */
  lemma LookQBlock(name: Naming, vars: seq<ObVar>, rest: Env, v: ObVar, d: nat, n: nat)
    ensures var i := Last(name, vars, v);
            Look(name, Subst(QBlock(vars, n), rest), v, d) ==
            if i < |vars| then QValue(n + (|vars| - 1 - i)) else Look(name, rest, v, d)
  {
    hide Last, First, Den;
    var i := Last(name, vars, v);
    FirstInReverse(name, vars, v);
    if i < |vars| { QConstMeans(name, rest, n + (|vars| - 1 - i), d); }
  }

  // ------------------------------------------------------------------
  // New constants
  // ------------------------------------------------------------------

  predicate IsQuantValue(args: seq<Value>, quants: nat) {
    |args| == 2 && args[0] == VAtom(QUANT) && args[1].VNum? && 0 <= args[1].num < quants
  }

  /** No constant $$quant(m) with m >= quants in v. */
  predicate Clean(v: Value, quants: nat) {
    match v
    case VAtom(a) => a != QUANT
    case VCons(h, t) => Clean(h, quants) && Clean(t, quants)
    case VStruct(args) => IsQuantValue(args, quants) || Cleans(args, quants)
    case VQuant(q, typed, tys, body) => Clean(q, quants) && Cleans(tys, quants) && Clean(body, quants)
    case _ => true
  }

  predicate Cleans(vs: seq<Value>, quants: nat) {
    vs == [] || (Clean(vs[0], quants) && Cleans(vs[1..], quants))
  }

  ghost predicate EnvOk(lim: Limits, env: Env) {
    match env
    case Top => true
    case Subst(b, rest) => Ins(lim, b.rans) && EnvOk(lim, rest)
    case Bind(_, _, rest) => EnvOk(lim, rest)
  }

  lemma {:induction false} PushOk(lim: Limits, bs: seq<Block>, env: Env)
    requires BlocksOk(lim, bs) && EnvOk(lim, env)
    ensures EnvOk(lim, Push(bs, env))
  {
    if bs != [] { PushOk(lim, bs[1..], env); }
  }

  lemma {:induction false} MeansClean(name: Naming, env: Env, t: Term, d: nat, lim: Limits)
    requires EnvOk(lim, env) && In(lim, t) && lim.metas == Anywhere && !lim.free
    ensures Clean(Den(name, env, t, d), lim.quants)
    decreases Weight(env) + Size(t), 1
  {
    match t
    case Var(v) => LookClean(name, env, v, d, lim);
    case Cons(h, tl) =>
      MeansClean(name, env, h, d, lim);
      MeansClean(name, env, tl, d, lim);
    case Struct(args) =>
      if IsQuant(args, lim.quants) {
        assert args == [Atom(QUANT), Num(args[1].n)];
        QConstMeans(name, env, args[1].n, d);
      } else {
        MeanClean(name, env, args, d, lim);
      }
    case Quant(q, vars, typed, tys, body) =>
      MeansClean(name, env, q, d, lim);
      MeanClean(name, env, tys, d, lim);
      MeansClean(name, Under(vars, d, env), body, d + 1, lim);
    case Sub(blocks, u) =>
      PushWeight(blocks, env);
      PushOk(lim, blocks, env);
      MeansClean(name, Push(blocks, env), u, d, lim);
    case _ =>
  }

  lemma {:induction false} MeanClean(name: Naming, env: Env, ts: seq<Term>, d: nat, lim: Limits)
    requires EnvOk(lim, env) && Ins(lim, ts) && lim.metas == Anywhere && !lim.free
    ensures Cleans(Dens(name, env, ts, d), lim.quants)
    decreases Weight(env) + Sizes(ts), 1
  {
    if ts != [] {
      MeansClean(name, env, ts[0], d, lim);
      MeanClean(name, env, ts[1..], d, lim);
    }
  }

  lemma {:induction false} LookClean(name: Naming, env: Env, v: ObVar, d: nat, lim: Limits)
    requires EnvOk(lim, env) && lim.metas == Anywhere && !lim.free
    ensures Clean(Look(name, env, v, d), lim.quants)
    decreases Weight(env), 2
  {
    match env
    case Top =>
    case Subst(b, rest) =>
      var i := First(name, b.doms, v);
      if i < |b.doms| && i < |b.rans| {
        SizeAt(b.rans, i);
        InAt(lim, b.rans, i);
        MeansClean(name, rest, b.rans[i], d, lim);
      } else {
        LookClean(name, rest, v, d, lim);
      }
    case Bind(vars, l, rest) =>
      if Last(name, vars, v) == |vars| { LookClean(name, rest, v, d, lim); }
  }

  /** Only an old constant opens to it. */
  lemma OldConst(args: seq<Value>, m: int, level: nat, k: nat, n: nat)
    ensures Opens(args, level, k, n) == [VAtom(QUANT), VNum(m)] <==> args == [VAtom(QUANT), VNum(m)]
  {
    var us := Opens(args, level, k, n);
    if |args| == 2 {
      assert us[0] == Open(args[0], level, k, n) && us[1] == Open(args[1], level, k, n);
      assert us == [us[0], us[1]] && args == [args[0], args[1]];
    }
  }

  /** A clean structure does not open to a new constant. */
  lemma NoNewConst(args: seq<Value>, level: nat, k: nat, n: nat, m: nat)
    ensures m >= n && VStruct(Opens(args, level, k, n)) == QValue(m) ==> !Clean(VStruct(args), n)
  {
    OldConst(args, m, level, k, n);
    assert !Cleans([VAtom(QUANT), VNum(m)], n);
  }

  /** Opening with new constants loses nothing. */
  lemma {:induction false} OpenInjective(a: Value, b: Value, level: nat, k: nat, n: nat)
    requires Clean(a, n) && Clean(b, n) && Open(a, level, k, n) == Open(b, level, k, n)
    ensures a == b
    decreases a
  {
    hide Opens, Cleans;
    match a
    case VBound(l, j) =>
      if l == level && j < k && b.VStruct? { NoNewConst(b.args, level, k, n, n + (k - 1 - j)); }
    case VCons(h, t) =>
      if b.VCons? {
        OpenInjective(h, b.car, level, k, n);
        OpenInjective(t, b.cdr, level, k, n);
      }
    case VStruct(args) =>
      if b.VStruct? {
        if IsQuantValue(args, n) {
          OldConst(b.args, args[1].num, level, k, n);
          OldConst(args, args[1].num, level, k, n);
        } else if IsQuantValue(b.args, n) {
          OldConst(args, b.args[1].num, level, k, n);
          OldConst(b.args, b.args[1].num, level, k, n);
        } else {
          OpensInjective(args, b.args, level, k, n);
        }
      } else if b.VBound? && b.level == level && b.place < k {
        NoNewConst(args, level, k, n, n + (k - 1 - b.place));
      }
    case VQuant(q, typed, tys, body) =>
      if b.VQuant? {
        OpenInjective(q, b.q, level, k, n);
        OpensInjective(tys, b.tys, level, k, n);
        OpenInjective(body, b.body, level, k, n);
      }
    case _ =>
  }

  lemma {:induction false} OpensInjective(us: seq<Value>, vs: seq<Value>, level: nat, k: nat, n: nat)
    requires Cleans(us, n) && Cleans(vs, n) && Opens(us, level, k, n) == Opens(vs, level, k, n)
    ensures us == vs
    decreases us
  {
    if us != [] {
      assert vs != [];
      assert Opens(us, level, k, n)[0] == Opens(vs, level, k, n)[0];
      assert Opens(us, level, k, n)[1..] == Opens(us[1..], level, k, n);
      assert Opens(vs, level, k, n)[1..] == Opens(vs[1..], level, k, n);
      OpenInjective(us[0], vs[0], level, k, n);
      OpensInjective(us[1..], vs[1..], level, k, n);
      assert us == [us[0]] + us[1..] && vs == [vs[0]] + vs[1..];
    }
  }
}
