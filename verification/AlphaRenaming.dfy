/** The meaning of a term does not depend on the names of its bound variables. */
module AlphaRenaming {
  import opened SubstitutedTerms

  /** No variable of t is called y. */
  predicate Absent(name: Naming, y: ObVar, t: Term)
    decreases t
  {
    match t
    case Var(v) => name(v) != name(y)
    case Cons(h, tl) => Absent(name, y, h) && Absent(name, y, tl)
    case Struct(args) => Absents(name, y, args)
    case Quant(q, vars, typed, tys, body) => Absent(name, y, q) && Absents(name, y, tys) && Absent(name, y, body)
    case Sub(blocks, u) => AbsentBlocks(name, y, blocks) && Absent(name, y, u)
    case _ => true
  }

  predicate Absents(name: Naming, y: ObVar, ts: seq<Term>)
    decreases ts
  {
    ts == [] || (Absent(name, y, ts[0]) && Absents(name, y, ts[1..]))
  }

  predicate AbsentBlocks(name: Naming, y: ObVar, bs: seq<Block>)
    decreases bs
  {
    bs == [] || (Absents(name, y, bs[0].rans) && AbsentBlocks(name, y, bs[1..]))
  }

  lemma {:induction false} AbsentAt(name: Naming, y: ObVar, ts: seq<Term>, i: nat)
    requires Absents(name, y, ts) && i < |ts|
    ensures Absent(name, y, ts[i])
  {
    if i > 0 { AbsentAt(name, y, ts[1..], i - 1); }
  }

  /** The variable at place k of vs may be called y: no later one is called as it is, or y. */
  predicate Free(name: Naming, vs: seq<ObVar>, k: nat, y: ObVar) {
    k < |vs| && forall j :: k < j < |vs| ==> name(vs[j]) != name(vs[k]) && name(vs[j]) != name(y)
  }

  /** The first quantifier at the given level binds vs; y does not occur above it. */
  predicate Renamable(name: Naming, env: Env, level: nat, vs: seq<ObVar>, k: nat, y: ObVar) {
    match env
    case Top => true
    case Subst(b, rest) => Absents(name, y, b.rans) && Renamable(name, rest, level, vs, k, y)
    case Bind(vars, l, rest) =>
      if l == level then vars == vs && Free(name, vs, k, y) else Renamable(name, rest, level, vs, k, y)
  }

  /** In env, the quantifier at the given level binds y at place k, which replaces the variable there. */
  function Renamed(env: Env, level: nat, vs: seq<ObVar>, k: nat, y: ObVar): Env {
    match env
    case Top => Top
    case Subst(b, rest) => Subst(b, Renamed(rest, level, vs, k, y))
    case Bind(vars, l, rest) =>
      if l == level && k < |vs| then Subst(Block([vs[k]], [Var(y)]), Bind(vs[k := y], l, rest))
      else Bind(vars, l, Renamed(rest, level, vs, k, y))
  }

  lemma {:induction false} PushRenamed(name: Naming, bs: seq<Block>, env: Env, level: nat, vs: seq<ObVar>, k: nat, y: ObVar)
    requires AbsentBlocks(name, y, bs) && Renamable(name, env, level, vs, k, y)
    ensures Renamable(name, Push(bs, env), level, vs, k, y)
    ensures Renamed(Push(bs, env), level, vs, k, y) == Push(bs, Renamed(env, level, vs, k, y))
  {
    if bs != [] { PushRenamed(name, bs[1..], env, level, vs, k, y); }
  }

  lemma UnderRenamed(name: Naming, vars: seq<ObVar>, d: nat, env: Env, level: nat, vs: seq<ObVar>, k: nat, y: ObVar)
    requires Renamable(name, env, level, vs, k, y) && d != level
    ensures Renamable(name, Under(vars, d, env), level, vs, k, y)
    ensures Renamed(Under(vars, d, env), level, vs, k, y) == Under(vars, d, Renamed(env, level, vs, k, y))
  {
  }

  lemma {:induction false} RenamedMeans(name: Naming, env: Env, t: Term, d: nat, level: nat, vs: seq<ObVar>, k: nat, y: ObVar)
    requires Renamable(name, env, level, vs, k, y) && Absent(name, y, t) && d > level
    ensures Den(name, Renamed(env, level, vs, k, y), t, d) == Den(name, env, t, d)
    decreases Weight(env) + Size(t), 1
  {
    hide Renamable, Renamed, Look, Under, Push;
    match t
    case Var(v) => RenamedLook(name, env, v, d, level, vs, k, y);
    case Cons(h, tl) =>
      RenamedMeans(name, env, h, d, level, vs, k, y);
      RenamedMeans(name, env, tl, d, level, vs, k, y);
    case Struct(args) => RenamedMean(name, env, args, d, level, vs, k, y);
    case Quant(q, vars, typed, tys, body) =>
      RenamedMeans(name, env, q, d, level, vs, k, y);
      RenamedMean(name, env, tys, d, level, vs, k, y);
      UnderRenamed(name, vars, d, env, level, vs, k, y);
      RenamedMeans(name, Under(vars, d, env), body, d + 1, level, vs, k, y);
    case Sub(blocks, u) =>
      PushWeight(blocks, env);
      PushRenamed(name, blocks, env, level, vs, k, y);
      RenamedMeans(name, Push(blocks, env), u, d, level, vs, k, y);
    case _ =>
  }

  lemma {:induction false} RenamedMean(name: Naming, env: Env, ts: seq<Term>, d: nat, level: nat, vs: seq<ObVar>, k: nat, y: ObVar)
    requires Renamable(name, env, level, vs, k, y) && Absents(name, y, ts) && d > level
    ensures Dens(name, Renamed(env, level, vs, k, y), ts, d) == Dens(name, env, ts, d)
    decreases Weight(env) + Sizes(ts), 1
  {
    if ts != [] {
      RenamedMeans(name, env, ts[0], d, level, vs, k, y);
      RenamedMean(name, env, ts[1..], d, level, vs, k, y);
    }
  }

  lemma {:induction false} RenamedLook(name: Naming, env: Env, v: ObVar, d: nat, level: nat, vs: seq<ObVar>, k: nat, y: ObVar)
    requires Renamable(name, env, level, vs, k, y) && name(v) != name(y) && d > level
    ensures Look(name, Renamed(env, level, vs, k, y), v, d) == Look(name, env, v, d)
    decreases Weight(env), 2
  {
    hide Den, First, Last;
    match env
    case Top =>
    case Subst(b, rest) =>
      var i := First(name, b.doms, v);
      if i < |b.doms| && i < |b.rans| {
        SizeAt(b.rans, i);
        AbsentAt(name, y, b.rans, i);
        RenamedMeans(name, rest, b.rans[i], d, level, vs, k, y);
      } else {
        RenamedLook(name, rest, v, d, level, vs, k, y);
      }
    case Bind(vars, l, rest) =>
      if l == level {
        RenamedHere(name, rest, v, d, l, vs, k, y);
      } else if Last(name, vars, v) == |vars| {
        RenamedLook(name, rest, v, d, level, vs, k, y);
      }
  }

  lemma RenamedHere(name: Naming, rest: Env, v: ObVar, d: nat, l: nat, vs: seq<ObVar>, k: nat, y: ObVar)
    requires name(v) != name(y) && Free(name, vs, k, y)
    ensures Look(name, Subst(Block([vs[k]], [Var(y)]), Bind(vs[k := y], l, rest)), v, d) == Look(name, Bind(vs, l, rest), v, d)
  {
    LastRenamed(name, vs, k, y, v);
    var x, e := vs[k], Bind(vs[k := y], l, rest);
    LookBind(name, rest, vs[k := y], y, l, d);
    LookBind(name, rest, vs, v, l, d);
    LookBind(name, rest, vs[k := y], v, l, d);
    hide Look, Last;
    assert Den(name, e, Var(y), d) == Look(name, e, y, d);
    LookOne(name, e, x, y, v, d);
  }

  /** The places of the variables that do not change, and of the one that does. */
  lemma LastRenamed(name: Naming, vs: seq<ObVar>, k: nat, y: ObVar, v: ObVar)
    requires name(v) != name(y) && Free(name, vs, k, y)
    ensures Last(name, vs[k := y], y) == k
    ensures if name(v) == name(vs[k]) then Last(name, vs, v) == k else Last(name, vs[k := y], v) == Last(name, vs, v)
  {
    hide Last;
    LastIs(name, vs[k := y], y, k);
    if name(v) == name(vs[k]) {
      LastIs(name, vs, v, k);
    } else {
      var i := Last(name, vs, v);
      LastIs(name, vs[k := y], v, i);
    }
  }

  lemma LastIs(name: Naming, vs: seq<ObVar>, v: ObVar, i: nat)
    requires i <= |vs| && (i < |vs| ==> name(vs[i]) == name(v))
    requires forall j :: 0 <= j < |vs| && (i < j || i == |vs|) ==> name(vs[j]) != name(v)
    ensures Last(name, vs, v) == i
  {
    hide Last;
    var l := Last(name, vs, v);
  }

  lemma LookBind(name: Naming, rest: Env, vs: seq<ObVar>, v: ObVar, l: nat, d: nat)
    ensures var i := Last(name, vs, v);
            Look(name, Bind(vs, l, rest), v, d) == if i < |vs| then VBound(l, i) else Look(name, rest, v, d)
  {
  }

  lemma LookOne(name: Naming, rest: Env, x: ObVar, y: ObVar, v: ObVar, d: nat)
    ensures Look(name, Subst(Block([x], [Var(y)]), rest), v, d) ==
            if name(v) == name(x) then Den(name, rest, Var(y), d) else Look(name, rest, v, d)
  {
    hide Den;
    var i := First(name, [x], v);
  }

  /** Renaming a bound variable to one that does not occur does not change what a quantified term
      means, in any context.  vars[k] is the one renamed; no variable bound after it has its name, or y's. */
  lemma AlphaVariants(name: Naming, env: Env, q: Term, vars: seq<ObVar>, k: nat, y: ObVar, typed: seq<bool>, tys: seq<Term>, body: Term,
                      d: nat)
    requires Absent(name, y, body) && Free(name, vars, k, y)
    ensures Den(name, env, Quant(q, vars, typed, tys, body), d) ==
            Den(name, env, Quant(q, vars[k := y], typed, tys, Sub([Block([vars[k]], [Var(y)])], body)), d)
  {
    var e := Bind(vars, d, env);
    RenamedMeans(name, e, body, d + 1, d, vars, k, y);
    var b := Block([vars[k]], [Var(y)]);
    assert Push([b], Bind(vars[k := y], d, env)) == Subst(b, Bind(vars[k := y], d, env));
    SubMeans(name, Under(vars[k := y], d, env), b, body, d + 1);
  }

  lemma SubMeans(name: Naming, env: Env, b: Block, body: Term, d: nat)
    ensures Den(name, env, Sub([b], body), d) == Den(name, Subst(b, env), body, d)
  {
    assert Push([b], env) == Subst(b, env) by { assert [b][1..] == []; }
  }

  /** A variable may be renamed wherever it is in a list of different names, to any name that is not in the list. */
  lemma FreeWhenDifferent(name: Naming, vs: seq<ObVar>, k: nat, y: ObVar)
    requires k < |vs| && forall i, j :: 0 <= i < j < |vs| ==> name(vs[i]) != name(vs[j])
    requires forall i :: 0 <= i < |vs| ==> name(vs[i]) != name(y)
    ensures Free(name, vs, k, y)
  {
  }

  /** y is absent from constants and meta-variables, from variables of other names, and from terms with parts from
      which it is absent; the names of bound variables and of domains do not matter. */
  lemma AbsentTerms(name: Naming, y: ObVar, t: Term)
    ensures match t
            case Var(v) => Absent(name, y, t) <==> name(v) != name(y)
            case Cons(h, tl) => Absent(name, y, t) <==> Absent(name, y, h) && Absent(name, y, tl)
            case Struct(args) => Absent(name, y, t) <==> forall i :: 0 <= i < |args| ==> Absent(name, y, args[i])
            case Quant(q, _, _, tys, body) =>
              Absent(name, y, t) <==> Absent(name, y, q) && Absent(name, y, body) && forall i :: 0 <= i < |tys| ==> Absent(name, y, tys[i])
            case Sub(blocks, u) =>
              Absent(name, y, t) <==> Absent(name, y, u)
                                      && forall i, j :: 0 <= i < |blocks| && 0 <= j < |blocks[i].rans| ==> Absent(name, y, blocks[i].rans[j])
            case _ => Absent(name, y, t)
  {
    match t
    case Struct(args) => EachAbsent(name, y, args);
    case Quant(_, _, _, tys, _) => EachAbsent(name, y, tys);
    case Sub(blocks, _) => EachBlockAbsent(name, y, blocks);
    case _ =>
  }

  lemma {:induction false} EachAbsent(name: Naming, y: ObVar, ts: seq<Term>)
    ensures Absents(name, y, ts) <==> forall i :: 0 <= i < |ts| ==> Absent(name, y, ts[i])
  {
    if ts != [] {
      EachAbsent(name, y, ts[1..]);
      assert forall i :: 0 < i < |ts| ==> ts[i] == ts[1..][i - 1];
    }
  }

  lemma {:induction false} EachBlockAbsent(name: Naming, y: ObVar, bs: seq<Block>)
    ensures AbsentBlocks(name, y, bs) <==> forall i, j :: 0 <= i < |bs| && 0 <= j < |bs[i].rans| ==> Absent(name, y, bs[i].rans[j])
  {
    if bs != [] {
      EachAbsent(name, y, bs[0].rans);
      EachBlockAbsent(name, y, bs[1..]);
      assert forall i :: 0 < i < |bs| ==> bs[i] == bs[1..][i - 1];
      assert forall i :: 0 <= i < |bs[1..]| ==> bs[1..][i] == bs[i + 1];
    }
  }
}
