/** Terms with quantifiers, object variables and explicit substitutions, and what they mean.

    An object variable stands for the name of a variable of the object language; two of them may
    stand for the same name.  The meaning of a term, once names are chosen, is a term without
    names for bound variables: a bound occurrence is the level of its quantifier and its place
    among the variables bound there, so that two terms mean the same exactly when they are equal
    up to renaming of bound variables.
 */
module SubstitutedTerms {
  datatype ObVar = ObVar(local: bool, id: nat)

  /** args[0] of a structure is its functor.  The bound variable vars[i] has the type tys[i] if
      typed[i]; tys[i] is NOTYPE if not.  The first block of a substitution is applied first. */
  datatype Term =
    | Atom(name: string)
    | Num(n: int)
    | Meta(m: nat)
    | Var(v: ObVar)
    | Cons(head: Term, tail: Term)
    | Struct(args: seq<Term>)
    | Quant(q: Term, vars: seq<ObVar>, typed: seq<bool>, tys: seq<Term>, body: Term)
    | Sub(blocks: seq<Block>, t: Term)

  const NOTYPE := Atom("")

  /** A parallel substitution: rans[i] replaces doms[i]; earlier pairs win. */
  datatype Block = Block(doms: seq<ObVar>, rans: seq<Term>)

  /** The meaning of a term. */
  datatype Value =
    | VAtom(atom: string)
    | VNum(num: int)
    | VMeta(m: nat)
    | VFree(name: nat)
    | VBound(level: nat, place: nat)
    | VCons(car: Value, cdr: Value)
    | VStruct(args: seq<Value>)
    | VQuant(q: Value, typed: seq<bool>, tys: seq<Value>, body: Value)

  /** The substitutions and quantifiers a term is under, innermost first. */
  datatype Env = Top | Subst(b: Block, rest: Env) | Bind(vars: seq<ObVar>, level: nat, rest: Env)

  type Naming = ObVar -> nat

  // ------------------------------------------------------------------
  // Sizes
  // ------------------------------------------------------------------

  function Size(t: Term): (n: nat)
    ensures n >= 1
  {
    match t
    case Cons(h, tl) => 1 + Size(h) + Size(tl)
    case Struct(args) => 1 + Sizes(args)
    case Quant(q, vars, typed, tys, body) => 3 + Size(q) + 6 * |vars| + Sizes(tys) + Size(body)
    case Sub(blocks, u) => 1 + BlockSizes(blocks) + Size(u)
    case _ => 1
  }

  function Sizes(ts: seq<Term>): nat {
    if ts == [] then 0 else 1 + Size(ts[0]) + Sizes(ts[1..])
  }

  function BlockSizes(bs: seq<Block>): nat {
    if bs == [] then 0 else 1 + Sizes(bs[0].rans) + BlockSizes(bs[1..])
  }

  function Weight(env: Env): nat {
    match env
    case Top => 0
    case Subst(b, rest) => 1 + Sizes(b.rans) + Weight(rest)
    case Bind(_, _, rest) => 1 + Weight(rest)
  }

  lemma {:induction false} SizeAt(ts: seq<Term>, i: nat)
    requires i < |ts|
    ensures Size(ts[i]) < Sizes(ts)
  {
    if i > 0 { SizeAt(ts[1..], i - 1); }
  }

  function Push(bs: seq<Block>, env: Env): Env {
    if bs == [] then env else Subst(bs[0], Push(bs[1..], env))
  }

  lemma {:induction false} PushWeight(bs: seq<Block>, env: Env)
    ensures Weight(Push(bs, env)) == BlockSizes(bs) + Weight(env)
  {
    if bs != [] { PushWeight(bs[1..], env); }
  }

  lemma {:induction false} PushAppend(a: seq<Block>, b: seq<Block>, env: Env)
    ensures Push(a + b, env) == Push(a, Push(b, env)) && BlockSizes(a + b) == BlockSizes(a) + BlockSizes(b)
  {
    if a == [] {
      assert a + b == b;
    } else {
      assert (a + b)[1..] == a[1..] + b;
      PushAppend(a[1..], b, env);
    }
  }

  // ------------------------------------------------------------------
  // Meaning
  // ------------------------------------------------------------------

  /** The first place of the name of v, or |doms|. */
  function First(name: Naming, doms: seq<ObVar>, v: ObVar): (i: nat)
    ensures i <= |doms|
    ensures i < |doms| ==> name(doms[i]) == name(v)
    ensures forall k :: 0 <= k < i ==> name(doms[k]) != name(v)
  {
    if doms == [] then 0
    else if name(doms[0]) == name(v) then 0
    else
      var i := First(name, doms[1..], v);
      assert forall k :: 0 < k < 1 + i ==> doms[k] == doms[1..][k - 1];
      1 + i
  }

  /** The last place of the name of v, or |vars|. */
  function Last(name: Naming, vars: seq<ObVar>, v: ObVar): (i: nat)
    ensures i <= |vars|
    ensures i < |vars| ==> name(vars[i]) == name(v)
    ensures forall k :: 0 <= k < |vars| && (i < k || i == |vars|) ==> name(vars[k]) != name(v)
  {
    if vars == [] then 0
    else
      var n := |vars| - 1;
      if name(vars[n]) == name(v) then n
      else
        var i := Last(name, vars[..n], v);
        if i == n then |vars| else i
  }

  /** The meaning of t under env, inside d quantifiers. */
  function Den(name: Naming, env: Env, t: Term, d: nat): Value
    decreases Weight(env) + Size(t), 1
  {
    match t
    case Atom(a) => VAtom(a)
    case Num(n) => VNum(n)
    case Meta(m) => VMeta(m)
    case Var(v) => Look(name, env, v, d)
    case Cons(h, tl) => VCons(Den(name, env, h, d), Den(name, env, tl, d))
    case Struct(args) => VStruct(Dens(name, env, args, d))
    case Quant(q, vars, typed, tys, body) =>
      VQuant(Den(name, env, q, d), typed, Dens(name, env, tys, d), Den(name, Under(vars, d, env), body, d + 1))
    case Sub(blocks, u) =>
      PushWeight(blocks, env);
      Den(name, Push(blocks, env), u, d)
  }

  function Under(vars: seq<ObVar>, d: nat, env: Env): (e: Env)
    ensures Weight(e) <= Weight(env) + 1
  {
    if vars == [] then env else Bind(vars, d, env)
  }

  function Dens(name: Naming, env: Env, ts: seq<Term>, d: nat): (vs: seq<Value>)
    decreases Weight(env) + Sizes(ts), 1
  {
    if ts == [] then [] else [Den(name, env, ts[0], d)] + Dens(name, env, ts[1..], d)
  }

  /** The meaning of an object variable. */
  function Look(name: Naming, env: Env, v: ObVar, d: nat): Value
    decreases Weight(env), 2
  {
    match env
    case Top => VFree(name(v))
    case Subst(b, rest) =>
      var i := First(name, b.doms, v);
      if i < |b.doms| && i < |b.rans| then
        SizeAt(b.rans, i);
        Den(name, rest, b.rans[i], d)
      else Look(name, rest, v, d)
    case Bind(vars, level, rest) =>
      var i := Last(name, vars, v);
      if i < |vars| then VBound(level, i) else Look(name, rest, v, d)
  }

  // ------------------------------------------------------------------
  // Instances
  // ------------------------------------------------------------------

  type Binding = nat -> Term

  /** t with its meta-variables replaced. */
  function Inst(mu: Binding, t: Term): Term {
    match t
    case Meta(m) => mu(m)
    case Cons(h, tl) => Cons(Inst(mu, h), Inst(mu, tl))
    case Struct(args) => Struct(Insts(mu, args))
    case Quant(q, vars, typed, tys, body) => Quant(Inst(mu, q), vars, typed, Insts(mu, tys), Inst(mu, body))
    case Sub(blocks, u) => Sub(InstBlocks(mu, blocks), Inst(mu, u))
    case _ => t
  }

  function Insts(mu: Binding, ts: seq<Term>): (us: seq<Term>)
    ensures |us| == |ts| && forall i :: 0 <= i < |ts| ==> us[i] == Inst(mu, ts[i])
  {
    if ts == [] then [] else [Inst(mu, ts[0])] + Insts(mu, ts[1..])
  }

  function InstBlocks(mu: Binding, bs: seq<Block>): (cs: seq<Block>)
    ensures |cs| == |bs|
  {
    if bs == [] then [] else [Block(bs[0].doms, Insts(mu, bs[0].rans))] + InstBlocks(mu, bs[1..])
  }

  lemma {:induction false} InstAppend(mu: Binding, a: seq<Block>, b: seq<Block>)
    ensures InstBlocks(mu, a + b) == InstBlocks(mu, a) + InstBlocks(mu, b)
  {
    if a == [] {
      assert a + b == b;
    } else {
      assert (a + b)[1..] == a[1..] + b;
      InstAppend(mu, a[1..], b);
    }
  }

  /** What the term t under the substitutions s means, in a context env. */
  function Meaning(name: Naming, mu: Binding, s: seq<Block>, t: Term, env: Env, d: nat): Value {
    Den(name, Push(InstBlocks(mu, s), env), Inst(mu, t), d)
  }
}
