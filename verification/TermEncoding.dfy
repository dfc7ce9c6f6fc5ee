/** The bytes a term is sent as.  Variables and atoms are sent in full once, and by their place in
    a table after that; sender and receiver build the same table.
 */
module TermEncoding {
  import opened EncodeMap

  type Byte = x: int | 0 <= x < 256
  type Bytes = seq<Byte>

  /** args[0] of a structure is its functor; a block is a list of domains and ranges in turn. */
  datatype Term =
    | Var(v: nat)
    | ObVar(v: nat)
    | Atom(name: Bytes)
    | Int(n: int)
    | Cons(head: Term, tail: Term)
    | Struct(args: seq<Term>)
    | Quant(q: Term, bound: Term, body: Term)
    | Subst(blocks: seq<Block>, t: Term)

  datatype Block = Block(pairs: seq<Term>)

  datatype MaybeName = NoName | Name(s: Bytes)

  /** The names of variables. */
  type Names = Term -> MaybeName

  type Table = seq<Term>

  datatype Coded = Coded(bytes: Bytes, table: Table)

  const REFERENCE: Byte := 0
  const VARIABLE: Byte := 1
  const OB_REFERENCE: Byte := 2
  const OB_VARIABLE: Byte := 3
  const LIST: Byte := 4
  const STRUCTURE: Byte := 5
  const QUANTIFIER: Byte := 6
  const ATOM_REF: Byte := 7
  const ATOM: Byte := 8
  const INTEGER: Byte := 9
  const SUBSTITUTION: Byte := 10
  const SUBSTITUTION_END: Byte := 11
  const NAME: Byte := 12
  const REF_OFFSET: Byte := 13

  /** The low byte of the tag of a substitution block. */
  const BLOCK_TAG: Byte := 0xBF

  /** $int64 */
  const INT64: Bytes := [36, 105, 110, 116, 54, 52]

  const W32 := 0x1_0000_0000
  const W64 := 0x1_0000_0000_0000_0000

  // ------------------------------------------------------------------
  // Numbers
  // ------------------------------------------------------------------

  /** writeEncodeNumber: the low 32 bits. */
  function Number(n: int): (b: Bytes)
    ensures |b| == 4
  {
    [Low(n / 0x100_0000), Low(n / 0x1_0000), Low(n / 0x100), Low(n)]
  }

  function Low(n: int): Byte { n % 256 }

  function NumberOf(b: Bytes): int
    requires |b| == 4
  {
    (((b[0] as int) * 256 + b[1] as int) * 256 + b[2] as int) * 256 + b[3] as int
  }

  lemma NumberRead(n: int)
    ensures NumberOf(Number(n)) == n % W32
  {
    var a, b, c, d := n / 0x100_0000, n / 0x1_0000, n / 0x100, n;
    assert c == d / 256 && b == c / 256 && a == b / 256;
    assert d == c * 256 + d % 256 && c == b * 256 + c % 256 && b == a * 256 + b % 256;
    assert n == (((a / 256 * 256 + a % 256) * 256 + b % 256) * 256 + c % 256) * 256 + d % 256;
    assert n == a / 256 * W32 + NumberOf(Number(n));
    assert 0 <= NumberOf(Number(n)) < W32;
  }

  /** An integer of 64 bits. */
  function Wrap64(n: int): int {
    var m := n % W64;
    if m < W64 / 2 then m else m - W64
  }

  predicate Fits32(n: int) { -0x8000_0000 <= n < 0x8000_0000 }

  /** What the receiver makes of n: encodeReadNumber does not extend the sign. */
  function Received(n: int): int {
    if Fits32(n) then n % W32 else Wrap64(n / W32 % W32 * W32 + n % W32)
  }

  /** An integer of 64 bits survives if and only if it is not a negative integer of 32 bits. */
  lemma IntSurvives(n: int)
    requires -W64 / 2 <= n < W64 / 2
    ensures Received(n) == n <==> !(Fits32(n) && n < 0)
  {
    if !Fits32(n) {
      var h := n / W32;
      assert n == h * W32 + n % W32;
      assert h % W32 == if h >= 0 then h else h + W32;
    }
  }

  // ------------------------------------------------------------------
  // Terms
  // ------------------------------------------------------------------

  predicate Shared(t: Term) { t.Var? || t.ObVar? || t.Atom? }

  function Place(table: Table, t: Term): (p: nat)
    ensures p <= |table| && (p < |table| <==> t in table) && (p < |table| ==> table[p] == t)
  {
    if table == [] then 0 else if table[0] == t then 0 else 1 + Place(table[1..], t)
  }

  function RefCode(t: Term): Byte
    requires Shared(t)
  {
    match t case Var(_) => REFERENCE case ObVar(_) => OB_REFERENCE case Atom(_) => ATOM_REF
  }

  function NewCode(t: Term): Byte
    requires Shared(t)
  {
    match t case Var(_) => VARIABLE case ObVar(_) => OB_VARIABLE case Atom(_) => ATOM
  }

  function NameBytes(s: Bytes): Bytes
    requires |s| < 256
  {
    [|s|] + s
  }

  /** encodeWriteVarName, encodeWriteAtom: the name of a variable, if it has one, or of an atom; nothing
      of a name that is too long. */
  function NewName(names: Names, t: Term): Bytes
    requires Shared(t)
  {
    match t
    case Atom(a) => if |a| < 256 then NameBytes(a) else []
    case _ => match names(t) case NoName => [] case Name(s) => [NAME] + if |s| < 256 then NameBytes(s) else []
  }

  /** What is new in table' has names that can be sent, and there are places for it. */
  ghost predicate Accepted(names: Names, table: Table, table': Table) {
    |table'| <= TABLE_MAX * TABLE_MAX && forall i :: |table| <= i < |table'| ==> NameOk(names, table'[i])
  }

  lemma AcceptedTwice(names: Names, a: Table, b: Table, c: Table)
    requires Grown(a, b) && Grown(b, c)
    ensures Accepted(names, a, c) <==> Accepted(names, a, b) && Accepted(names, b, c)
  {
  }

  predicate NameOk(names: Names, t: Term) {
    if t.Atom? then |t.name| < 256 else names(t).Name? ==> |names(t).s| < 256
  }

  function Reference(code: Byte, p: nat): Bytes
    requires p < TABLE_MAX * TABLE_MAX
  {
    if p >= 256 then [REF_OFFSET, p / 256, code, p % 256] else [code, p]
  }

  /** A structure that the receiver takes for the two halves of an integer. */
  predicate IsPair(args: seq<Term>) {
    |args| == 3 && args[0] == Atom(INT64) && args[1].Int? && args[2].Int? && Fits32(args[1].n) && Fits32(args[2].n)
  }

  /** The integer it takes them for: encodeReadNumber does not extend the sign of the second. */
  function Joined(hi: int, lo: int): int { hi * W32 + lo % W32 }

  /** What can be received: integers of 64 bits, and after $int64 and two arguments no other bytes than
      those of the two integers that encodeReadTerm asserts. */
  predicate Sendable(t: Term) {
    match t
    case Int(n) => -W64 / 2 <= n < W64 / 2
    case Cons(h, tl) => Sendable(h) && Sendable(tl)
    case Struct(args) => 0 < |args| <= W32 && (|args| == 3 && args[0] == Atom(INT64) ==> IsPair(args)) && Sendables(args)
    case Quant(q, b, body) => Sendable(q) && Sendable(b) && Sendable(body)
    case Subst(blocks, u) => blocks != [] && BlocksSendable(blocks) && Sendable(u)
    case _ => true
  }

  predicate Sendables(ts: seq<Term>) {
    ts == [] || (Sendable(ts[0]) && Sendables(ts[1..]))
  }

  predicate BlocksSendable(bs: seq<Block>) {
    bs == [] || (|bs[0].pairs| % 2 == 0 && |bs[0].pairs| / 2 < W32 && Sendables(bs[0].pairs) && BlocksSendable(bs[1..]))
  }

  /** A variable or an atom. */
  function EncShared(names: Names, t: Term, table: Table): Coded
    requires Shared(t)
  {
    var p := Place(table, t);
    if p < |table| then Coded(if p < TABLE_MAX * TABLE_MAX then Reference(RefCode(t), p) else [], table)
    else Coded([NewCode(t)] + NewName(names, t), table + [t])
  }

  function EncInt(names: Names, n: int, table: Table): Coded {
    if Fits32(n) then Coded([INTEGER] + Number(n), table)
    else
      var a := EncShared(names, Atom(INT64), table);
      Coded([STRUCTURE] + Number(2) + a.bytes + ([INTEGER] + Number(n / W32) + ([INTEGER] + Number(n % W32))), a.table)
  }

  /** encodeWriteTerm: the bytes for t, and the table after them. */
  function Enc(names: Names, t: Term, table: Table): Coded
    decreases t
  {
    match t
    case Int(n) => EncInt(names, n, table)
    case Cons(h, tl) =>
      var a := Enc(names, h, table);
      var b := Enc(names, tl, a.table);
      Coded([LIST] + (a.bytes + b.bytes), b.table)
    case Struct(args) =>
      var a := EncAll(names, args, table);
      Coded([STRUCTURE] + (Number(|args| - 1) + a.bytes), a.table)
    case Quant(q, bound, body) =>
      var a := Enc(names, q, table);
      var b := Enc(names, bound, a.table);
      var c := Enc(names, body, b.table);
      Coded([QUANTIFIER] + (a.bytes + (b.bytes + c.bytes)), c.table)
    case Subst(blocks, u) =>
      var a := EncBlocks(names, blocks, table);
      var b := Enc(names, u, a.table);
      Coded([SUBSTITUTION] + (a.bytes + ([SUBSTITUTION_END] + b.bytes)), b.table)
    case _ => EncShared(names, t, table)
  }

  function EncAll(names: Names, ts: seq<Term>, table: Table): Coded
    decreases ts
  {
    if ts == [] then Coded([], table)
    else
      var a := Enc(names, ts[0], table);
      var b := EncAll(names, ts[1..], a.table);
      Coded(a.bytes + b.bytes, b.table)
  }

  /** encodeWriteSub: the last block first. */
  function EncBlocks(names: Names, bs: seq<Block>, table: Table): Coded
    decreases bs
  {
    if bs == [] then Coded([], table)
    else
      var a := EncBlocks(names, bs[1..], table);
      var b := EncAll(names, bs[0].pairs, a.table);
      Coded(a.bytes + ([BLOCK_TAG] + (Number(|bs[0].pairs| / 2) + b.bytes)), b.table)
  }

  // ------------------------------------------------------------------
  // Tables
  // ------------------------------------------------------------------

  predicate Entries(table: Table) { forall t :: t in table ==> Shared(t) }

  /** The table only grows, without repeats, and by variables and atoms. */
  ghost predicate Grown(table: Table, table': Table) {
    table <= table' && (NoRepeats(table) ==> NoRepeats(table')) && (Entries(table) ==> Entries(table'))
  }

  lemma GrownTwice(a: Table, b: Table, c: Table)
    requires Grown(a, b) && Grown(b, c)
    ensures Grown(a, c)
  {
  }

  /** Every variable and atom of t has a place. */
  predicate Known(t: Term, table: Table) {
    match t
    case Int(_) => true
    case Cons(h, tl) => Known(h, table) && Known(tl, table)
    case Struct(args) => Knowns(args, table)
    case Quant(q, b, body) => Known(q, table) && Known(b, table) && Known(body, table)
    case Subst(blocks, u) => BlocksKnown(blocks, table) && Known(u, table)
    case _ => t in table
  }

  predicate Knowns(ts: seq<Term>, table: Table) {
    ts == [] || (Known(ts[0], table) && Knowns(ts[1..], table))
  }

  predicate BlocksKnown(bs: seq<Block>, table: Table) {
    bs == [] || (Knowns(bs[0].pairs, table) && BlocksKnown(bs[1..], table))
  }

  lemma {:induction false} KnownMore(t: Term, a: Table, b: Table)
    requires Known(t, a) && a <= b
    ensures Known(t, b)
    decreases t
  {
    match t
    case Int(_) =>
    case Cons(h, tl) =>
      KnownMore(h, a, b);
      KnownMore(tl, a, b);
    case Struct(args) => KnownsMore(args, a, b);
    case Quant(q, bound, body) =>
      KnownMore(q, a, b);
      KnownMore(bound, a, b);
      KnownMore(body, a, b);
    case Subst(blocks, u) =>
      BlocksKnownMore(blocks, a, b);
      KnownMore(u, a, b);
    case _ =>
  }

  lemma {:induction false} KnownsMore(ts: seq<Term>, a: Table, b: Table)
    requires Knowns(ts, a) && a <= b
    ensures Knowns(ts, b)
    decreases ts
  {
    if ts != [] {
      KnownMore(ts[0], a, b);
      KnownsMore(ts[1..], a, b);
    }
  }

  lemma {:induction false} BlocksKnownMore(bs: seq<Block>, a: Table, b: Table)
    requires BlocksKnown(bs, a) && a <= b
    ensures BlocksKnown(bs, b)
    decreases bs
  {
    if bs != [] {
      KnownsMore(bs[0].pairs, a, b);
      BlocksKnownMore(bs[1..], a, b);
    }
  }

  lemma SharedGrown(names: Names, t: Term, table: Table)
    requires Shared(t)
    ensures Grown(table, EncShared(names, t, table).table) && t in EncShared(names, t, table).table
  {
  }

  lemma {:induction false} EncGrown(names: Names, t: Term, table: Table)
    ensures Grown(table, Enc(names, t, table).table) && Known(t, Enc(names, t, table).table)
    decreases t
  {
    hide Grown, Entries;
    GrownRefl(table);
    match t
    case Int(n) => SharedGrown(names, Atom(INT64), table);
    case Cons(h, tl) =>
      var a := Enc(names, h, table);
      var b := Enc(names, tl, a.table);
      EncGrown(names, h, table);
      EncGrown(names, tl, a.table);
      GrownTwice(table, a.table, b.table);
      GrownPrefix(a.table, b.table);
      KnownMore(h, a.table, b.table);
    case Struct(args) => EncAllGrown(names, args, table);
    case Quant(q, bound, body) =>
      var a := Enc(names, q, table);
      var b := Enc(names, bound, a.table);
      var c := Enc(names, body, b.table);
      EncGrown(names, q, table);
      EncGrown(names, bound, a.table);
      EncGrown(names, body, b.table);
      GrownTwice(table, a.table, b.table);
      GrownTwice(table, b.table, c.table);
      GrownPrefix(a.table, b.table);
      GrownPrefix(b.table, c.table);
      KnownMore(q, a.table, c.table);
      KnownMore(bound, b.table, c.table);
    case Subst(blocks, u) =>
      var a := EncBlocks(names, blocks, table);
      var b := Enc(names, u, a.table);
      EncBlocksGrown(names, blocks, table);
      EncGrown(names, u, a.table);
      GrownTwice(table, a.table, b.table);
      GrownPrefix(a.table, b.table);
      BlocksKnownMore(blocks, a.table, b.table);
    case _ => SharedGrown(names, t, table);
  }

  lemma GrownRefl(table: Table)
    ensures Grown(table, table)
  {
  }

  lemma GrownPrefix(a: Table, b: Table)
    requires Grown(a, b)
    ensures a <= b
  {
  }

  lemma {:induction false} EncAllGrown(names: Names, ts: seq<Term>, table: Table)
    ensures Grown(table, EncAll(names, ts, table).table) && Knowns(ts, EncAll(names, ts, table).table)
    decreases ts
  {
    hide Grown, Entries;
    GrownRefl(table);
    if ts != [] {
      var a := Enc(names, ts[0], table);
      var b := EncAll(names, ts[1..], a.table);
      EncGrown(names, ts[0], table);
      EncAllGrown(names, ts[1..], a.table);
      GrownTwice(table, a.table, b.table);
      GrownPrefix(a.table, b.table);
      KnownMore(ts[0], a.table, b.table);
    }
  }

  lemma {:induction false} EncBlocksGrown(names: Names, bs: seq<Block>, table: Table)
    ensures Grown(table, EncBlocks(names, bs, table).table) && BlocksKnown(bs, EncBlocks(names, bs, table).table)
    decreases bs
  {
    hide Grown, Entries;
    GrownRefl(table);
    if bs != [] {
      var a := EncBlocks(names, bs[1..], table);
      var b := EncAll(names, bs[0].pairs, a.table);
      EncBlocksGrown(names, bs[1..], table);
      EncAllGrown(names, bs[0].pairs, a.table);
      GrownTwice(table, a.table, b.table);
      GrownPrefix(a.table, b.table);
      BlocksKnownMore(bs[1..], a.table, b.table);
    }
  }

  // ------------------------------------------------------------------
  // What the receiver has
  // ------------------------------------------------------------------

  /** The receiver's table has the same atoms at the same places, and variables of its own, all
      different, for the sender's. */
  ghost predicate Lockstep(wt: Table, rt: Table, next: nat) {
    && |wt| == |rt| && NoRepeats(wt) && NoRepeats(rt)
    && forall i :: 0 <= i < |wt| ==>
         match wt[i]
         case Var(_) => rt[i].Var? && rt[i].v < next
         case ObVar(_) => rt[i].ObVar? && rt[i].v < next
         case Atom(_) => rt[i] == wt[i]
         case _ => false
  }

  /** t with the receiver's variables for the sender's, and integers as received: what is received for t. */
  function Ren(t: Term, wt: Table, rt: Table): Term {
    match t
    case Int(n) => Int(Received(n))
    case Cons(h, tl) => Cons(Ren(h, wt, rt), Ren(tl, wt, rt))
    case Struct(args) => if IsPair(args) then Int(Joined(args[1].n, args[2].n)) else Struct(Rens(args, wt, rt))
    case Quant(q, b, body) => Quant(Ren(q, wt, rt), Ren(b, wt, rt), Ren(body, wt, rt))
    case Subst(blocks, u) => Subst(RenBlocks(blocks, wt, rt), Ren(u, wt, rt))
    case _ => var p := Place(wt, t); if p < |rt| then rt[p] else t
  }

  function Rens(ts: seq<Term>, wt: Table, rt: Table): (us: seq<Term>)
    ensures |us| == |ts|
  {
    if ts == [] then [] else [Ren(ts[0], wt, rt)] + Rens(ts[1..], wt, rt)
  }

  function RenBlocks(bs: seq<Block>, wt: Table, rt: Table): (cs: seq<Block>)
    ensures |cs| == |bs|
  {
    if bs == [] then [] else [Block(Rens(bs[0].pairs, wt, rt))] + RenBlocks(bs[1..], wt, rt)
  }

  lemma {:induction false} PlaceMore(a: Table, b: Table, t: Term)
    requires t in a && a <= b
    ensures Place(b, t) == Place(a, t)
  {
    if a[0] != t { PlaceMore(a[1..], b[1..], t); }
  }

  /** Later entries do not change what is known. */
  lemma {:induction false} RenMore(t: Term, wt: Table, rt: Table, wt': Table, rt': Table)
    requires Known(t, wt) && wt <= wt' && rt <= rt' && |wt| == |rt|
    ensures Ren(t, wt', rt') == Ren(t, wt, rt)
    decreases t
  {
    match t
    case Int(_) =>
    case Cons(h, tl) =>
      RenMore(h, wt, rt, wt', rt');
      RenMore(tl, wt, rt, wt', rt');
    case Struct(args) => RensMore(args, wt, rt, wt', rt');
    case Quant(q, bound, body) =>
      RenMore(q, wt, rt, wt', rt');
      RenMore(bound, wt, rt, wt', rt');
      RenMore(body, wt, rt, wt', rt');
    case Subst(blocks, u) =>
      RenBlocksMore(blocks, wt, rt, wt', rt');
      RenMore(u, wt, rt, wt', rt');
    case _ => PlaceMore(wt, wt', t);
  }

  lemma {:induction false} RensMore(ts: seq<Term>, wt: Table, rt: Table, wt': Table, rt': Table)
    requires Knowns(ts, wt) && wt <= wt' && rt <= rt' && |wt| == |rt|
    ensures Rens(ts, wt', rt') == Rens(ts, wt, rt)
    decreases ts
  {
    if ts != [] {
      RenMore(ts[0], wt, rt, wt', rt');
      RensMore(ts[1..], wt, rt, wt', rt');
    }
  }

  lemma {:induction false} RenBlocksMore(bs: seq<Block>, wt: Table, rt: Table, wt': Table, rt': Table)
    requires BlocksKnown(bs, wt) && wt <= wt' && rt <= rt' && |wt| == |rt|
    ensures RenBlocks(bs, wt', rt') == RenBlocks(bs, wt, rt)
    decreases bs
  {
    if bs != [] {
      RensMore(bs[0].pairs, wt, rt, wt', rt');
      RenBlocksMore(bs[1..], wt, rt, wt', rt');
    }
  }

  /** Different variables become different variables, equal ones equal: sharing is preserved. */
  lemma RenInjective(wt: Table, rt: Table, next: nat, t: Term, u: Term)
    requires Lockstep(wt, rt, next) && Shared(t) && Shared(u) && t in wt && u in wt
    ensures Ren(t, wt, rt) == Ren(u, wt, rt) <==> t == u
    ensures t.Atom? ==> Ren(t, wt, rt) == t
    ensures Ren(t, wt, rt).Var? <==> t.Var?
    ensures Ren(t, wt, rt).ObVar? <==> t.ObVar?
  {
  }

  /** t has no negative integer of 32 bits, and no structure that is taken for an integer. */
  predicate Unaltered(t: Term) {
    match t
    case Int(n) => !(Fits32(n) && n < 0)
    case Cons(h, tl) => Unaltered(h) && Unaltered(tl)
    case Struct(args) => !IsPair(args) && AllUnaltered(args)
    case Quant(q, b, body) => Unaltered(q) && Unaltered(b) && Unaltered(body)
    case Subst(blocks, u) => BlocksUnaltered(blocks) && Unaltered(u)
    case _ => true
  }

  predicate AllUnaltered(ts: seq<Term>) {
    ts == [] || (Unaltered(ts[0]) && AllUnaltered(ts[1..]))
  }

  predicate BlocksUnaltered(bs: seq<Block>) {
    bs == [] || (AllUnaltered(bs[0].pairs) && BlocksUnaltered(bs[1..]))
  }

  /** The variables received stand one to one for those sent: naming them back gives the term sent,
      if and only if it has no negative integer of 32 bits and no $int64 pair. */
  lemma {:induction false} RoundTrip(t: Term, wt: Table, rt: Table, next: nat)
    requires Sendable(t) && Known(t, wt) && Lockstep(wt, rt, next)
    ensures Ren(Ren(t, wt, rt), rt, wt) == t <==> Unaltered(t)
    decreases t
  {
    match t
    case Int(n) =>
      IntSurvives(n);
      ReceivedTwice(n);
    case Cons(h, tl) =>
      RoundTrip(h, wt, rt, next);
      RoundTrip(tl, wt, rt, next);
    case Struct(args) =>
      if !IsPair(args) {
        RoundTrips(args, wt, rt, next);
        OtherFunctor(args, wt, rt, next);
      }
    case Quant(q, bound, body) =>
      RoundTrip(q, wt, rt, next);
      RoundTrip(bound, wt, rt, next);
      RoundTrip(body, wt, rt, next);
    case Subst(blocks, u) =>
      RoundTripBlocks(blocks, wt, rt, next);
      RoundTrip(u, wt, rt, next);
    case _ => NamedBack(t, wt, rt, next);
  }

  lemma {:induction false} RoundTrips(ts: seq<Term>, wt: Table, rt: Table, next: nat)
    requires Sendables(ts) && Knowns(ts, wt) && Lockstep(wt, rt, next)
    ensures Rens(Rens(ts, wt, rt), rt, wt) == ts <==> AllUnaltered(ts)
    decreases ts
  {
    if ts != [] {
      RoundTrip(ts[0], wt, rt, next);
      RoundTrips(ts[1..], wt, rt, next);
      var us := Rens(ts, wt, rt);
      assert us[0] == Ren(ts[0], wt, rt) && us[1..] == Rens(ts[1..], wt, rt);
      OneFirst(Rens(us, rt, wt), Ren(us[0], rt, wt), Rens(us[1..], rt, wt), ts);
    }
  }

  lemma {:induction false} RoundTripBlocks(bs: seq<Block>, wt: Table, rt: Table, next: nat)
    requires BlocksSendable(bs) && BlocksKnown(bs, wt) && Lockstep(wt, rt, next)
    ensures RenBlocks(RenBlocks(bs, wt, rt), rt, wt) == bs <==> BlocksUnaltered(bs)
    decreases bs
  {
    if bs != [] {
      RoundTrips(bs[0].pairs, wt, rt, next);
      RoundTripBlocks(bs[1..], wt, rt, next);
      var cs := RenBlocks(bs, wt, rt);
      assert cs[0] == Block(Rens(bs[0].pairs, wt, rt)) && cs[1..] == RenBlocks(bs[1..], wt, rt);
      OneFirst(RenBlocks(cs, rt, wt), Block(Rens(cs[0].pairs, rt, wt)), RenBlocks(cs[1..], rt, wt), bs);
    }
  }

  lemma OneFirst<T>(us: seq<T>, u: T, rest: seq<T>, ts: seq<T>)
    requires us == [u] + rest && ts != []
    ensures us == ts <==> u == ts[0] && rest == ts[1..]
  {
    if us == ts { assert us[0] == u && us[1..] == rest; }
    if u == ts[0] && rest == ts[1..] { assert ts == [ts[0]] + ts[1..]; }
  }

  /** What is received for a structure is taken for an integer only if the structure is. */
  lemma OtherFunctor(args: seq<Term>, wt: Table, rt: Table, next: nat)
    requires Knowns(args, wt) && Lockstep(wt, rt, next) && args != [] && Sendable(Struct(args)) && !IsPair(args)
    ensures !IsPair(Rens(args, wt, rt))
  {
    RenInt64(args[0], wt, rt, next);
  }

  /** Only the atom $int64 arrives as $int64. */
  lemma RenInt64(t: Term, wt: Table, rt: Table, next: nat)
    requires Known(t, wt) && Lockstep(wt, rt, next)
    ensures Ren(t, wt, rt) == Atom(INT64) <==> t == Atom(INT64)
  {
  }

  lemma ReceivedTwice(n: int)
    requires -W64 / 2 <= n < W64 / 2
    ensures Received(Received(n)) == Received(n)
  {
    IntSurvives(n);
    if Fits32(n) && n < 0 { IntSurvives(n + W32); }
  }

  lemma NamedBack(t: Term, wt: Table, rt: Table, next: nat)
    requires Shared(t) && t in wt && Lockstep(wt, rt, next)
    ensures Ren(Ren(t, wt, rt), rt, wt) == t
  {
    var p := Place(wt, t);
    assert rt[p] in rt && Place(rt, rt[p]) == p;
  }

  // ------------------------------------------------------------------
  // Bytes and what starts them
  // ------------------------------------------------------------------

  predicate NotName(s: Bytes) { s == [] || s[0] != NAME }

  /** The last bytes of t are those of a variable that is sent for the first time and has no name; what
      follows them must not look like a name. */
  predicate EndsBare(names: Names, t: Term, table: Table)
    decreases t
  {
    match t
    case Atom(_) => false
    case Int(_) => false
    case Cons(h, tl) => EndsBare(names, tl, Enc(names, h, table).table)
    case Struct(args) => AllEndBare(names, args, table)
    case Quant(q, b, body) => EndsBare(names, body, Enc(names, b, Enc(names, q, table).table).table)
    case Subst(blocks, u) => EndsBare(names, u, EncBlocks(names, blocks, table).table)
    case _ => t !in table && names(t).NoName?
  }

  predicate AllEndBare(names: Names, ts: seq<Term>, table: Table)
    decreases ts
  {
    if ts == [] then false
    else if |ts| == 1 then EndsBare(names, ts[0], table)
    else AllEndBare(names, ts[1..], Enc(names, ts[0], table).table)
  }

  /** The first byte tells what kind of term follows. */
  predicate Starts(t: Term, known: bool, c: Byte) {
    match t
    case Int(n) => c == if Fits32(n) then INTEGER else STRUCTURE
    case Cons(_, _) => c == LIST
    case Struct(_) => c == STRUCTURE
    case Quant(_, _, _) => c == QUANTIFIER
    case Subst(_, _) => c == SUBSTITUTION
    case _ => if known then c == RefCode(t) || c == REF_OFFSET else c == NewCode(t)
  }

  lemma FirstByte(names: Names, t: Term, table: Table)
    requires |table| <= TABLE_MAX * TABLE_MAX
    ensures var b := Enc(names, t, table).bytes; b != [] && Starts(t, t in table, b[0]) && b[0] != NAME && b[0] != SUBSTITUTION_END
  {
  }

  /** The bytes that begin a term, kind by kind. */
  lemma FirstByteIs(names: Names, t: Term, table: Table)
    requires |table| <= TABLE_MAX * TABLE_MAX
    ensures var b, p := Enc(names, t, table).bytes, Place(table, t);
            && b != []
            && match t
               case Var(_) => b[0] == if t !in table then 1 else if p < 256 then 0 else 13
               case ObVar(_) => b[0] == if t !in table then 3 else if p < 256 then 2 else 13
               case Atom(_) => b[0] == if t !in table then 8 else if p < 256 then 7 else 13
               case Int(n) => b[0] == if -0x8000_0000 <= n <= 0x7fff_ffff then 9 else 5
               case Cons(_, _) => b[0] == 4
               case Struct(_) => b[0] == 5
               case Quant(_, _, _) => b[0] == 6
               case Subst(_, _) => b[0] == 10
  {
  }

  /** A number of 32 bits is sent with its highest byte first. */
  lemma IntegerBytes(names: Names, n: int, table: Table)
    requires -0x8000_0000 <= n <= 0x7fff_ffff
    ensures Enc(names, Int(n), table).bytes == [9, n / 0x100_0000 % 0x100, n / 0x1_0000 % 0x100, n / 0x100 % 0x100, n % 0x100]
  {
  }

  /** A longer one as $int64 and its halves. */
  lemma WideBytes(names: Names, n: int, table: Table)
    requires !(-0x8000_0000 <= n <= 0x7fff_ffff) && Atom([36, 105, 110, 116, 54, 52]) !in table
    ensures Enc(names, Int(n), table).bytes ==
            [5, 0, 0, 0, 2, 8, 6, 36, 105, 110, 116, 54, 52] + ([9] + Number(n / W32) + ([9] + Number(n % W32)))
  {
    assert !Fits32(n);
    EncWide(names, n, table);
    Int64Name(names, table);
    hide *;
    ThreeInRow([5], Number(2), EncShared(names, Atom(INT64), table).bytes, [9] + Number(n / W32) + ([9] + Number(n % W32)));
  }

  lemma Int64Name(names: Names, table: Table)
    requires Atom([36, 105, 110, 116, 54, 52]) !in table
    ensures [5] + Number(2) + EncShared(names, Atom(INT64), table).bytes == [5, 0, 0, 0, 2, 8, 6, 36, 105, 110, 116, 54, 52]
  {
    assert [8] + ([6] + [36, 105, 110, 116, 54, 52]) == [8, 6, 36, 105, 110, 116, 54, 52];
  }

  /** Of an atom or a variable that has been sent: one byte of place, or its page and its place on the page. */
  lemma ReferenceBytes(names: Names, t: Term, table: Table)
    requires |table| <= TABLE_MAX * TABLE_MAX && Shared(t) && t in table
    ensures var b, p, code := Enc(names, t, table).bytes, Place(table, t), if t.Var? then 0 else if t.ObVar? then 2 else 7;
            b == if p < 256 then [code, p] else [13, p / 256, code, p % 256]
  {
  }

  /** Of a new one: its name with the length, if it has one. */
  lemma NewBytesAre(names: Names, t: Term, table: Table)
    requires NameOk(names, t) && Shared(t) && t !in table
    ensures var b, code := Enc(names, t, table).bytes, if t.Var? then 1 else if t.ObVar? then 3 else 8;
            if t.Atom? then b == [code, |t.name|] + t.name
            else if names(t).Name? then b == [code, 12, |names(t).s|] + names(t).s
            else b == [code]
  {
    assert Enc(names, t, table).bytes == [NewCode(t)] + NewName(names, t);
    if t.Atom? {
      OneInFront(8, |t.name|, t.name);
    } else if names(t).Name? {
      OneInFront(12, |names(t).s|, names(t).s);
      TwoInFront(NewCode(t), 12, |names(t).s|, names(t).s);
    }
  }

  lemma OneInFront(a: Byte, b: Byte, s: Bytes)
    ensures [a] + ([b] + s) == [a, b] + s
  {
  }

  lemma TwoInFront(a: Byte, b: Byte, c: Byte, s: Bytes)
    ensures [a] + ([b, c] + s) == [a, b, c] + s
  {
  }

  /** The bytes of a compound term around those of its parts. */
  lemma CompoundBytes(names: Names, t: Term, table: Table)
    ensures match t
            case Cons(h, tl) =>
              var a := Enc(names, h, table);
              Enc(names, t, table).bytes == [4] + (a.bytes + Enc(names, tl, a.table).bytes)
            case Struct(args) => Enc(names, t, table).bytes == [5] + (Number(|args| - 1) + EncAll(names, args, table).bytes)
            case Quant(q, bound, body) =>
              var a := Enc(names, q, table);
              var b := Enc(names, bound, a.table);
              Enc(names, t, table).bytes == [6] + (a.bytes + (b.bytes + Enc(names, body, b.table).bytes))
            case Subst(blocks, u) =>
              |blocks| == 1 ==>
                var a := EncAll(names, blocks[0].pairs, table);
                Enc(names, t, table).bytes == [10] + ([0xBF] + (Number(|blocks[0].pairs| / 2) + a.bytes) + ([11] + Enc(names, u, a.table).bytes))
            case _ => true
  {
    hide Number, EncShared, EncInt;
    if t.Subst? && |t.blocks| == 1 { OneBlock(names, t.blocks, table); }
  }

  lemma OneBlock(names: Names, bs: seq<Block>, table: Table)
    requires |bs| == 1
    ensures var a := EncAll(names, bs[0].pairs, table);
            EncBlocks(names, bs, table) == Coded([BLOCK_TAG] + (Number(|bs[0].pairs| / 2) + a.bytes), a.table)
  {
    assert bs[1..] == [] && EncBlocks(names, [], table) == Coded([], table);
    var a := EncAll(names, bs[0].pairs, table);
    assert [] + ([BLOCK_TAG] + (Number(|bs[0].pairs| / 2) + a.bytes)) == [BLOCK_TAG] + (Number(|bs[0].pairs| / 2) + a.bytes);
  }

  lemma AllNotName(names: Names, ts: seq<Term>, table: Table, rest: Bytes)
    requires |table| <= TABLE_MAX * TABLE_MAX && NotName(rest)
    ensures NotName(EncAll(names, ts, table).bytes + rest)
  {
    if ts != [] {
      FirstByte(names, ts[0], table);
      var a := Enc(names, ts[0], table);
      assert EncAll(names, ts, table).bytes == a.bytes + EncAll(names, ts[1..], a.table).bytes;
    }
  }

  // ------------------------------------------------------------------
  // Blocks as they are received: from the front of the bytes, the last block first
  // ------------------------------------------------------------------

  function EncFront(names: Names, bs: seq<Block>, table: Table): Coded
    decreases |bs|
  {
    if bs == [] then Coded([], table)
    else
      var n := |bs| - 1;
      var a := EncAll(names, bs[n].pairs, table);
      var b := EncFront(names, bs[..n], a.table);
      Coded([BLOCK_TAG] + (Number(|bs[n].pairs| / 2) + (a.bytes + b.bytes)), b.table)
  }

  predicate BlockSendable(b: Block) {
    |b.pairs| % 2 == 0 && |b.pairs| / 2 < W32 && Sendables(b.pairs)
  }

  predicate AllSendable(bs: seq<Block>) { forall i :: 0 <= i < |bs| ==> BlockSendable(bs[i]) }

  lemma {:induction false} EachSendable(bs: seq<Block>)
    requires BlocksSendable(bs)
    ensures AllSendable(bs)
  {
    if bs != [] { EachSendable(bs[1..]); }
  }

  lemma {:induction false} FrontFirst(names: Names, x: Block, ys: seq<Block>, table: Table)
    ensures var a := EncFront(names, ys, table);
            var b := EncAll(names, x.pairs, a.table);
            EncFront(names, [x] + ys, table) ==
            Coded(a.bytes + ([BLOCK_TAG] + (Number(|x.pairs| / 2) + b.bytes)), b.table)
    decreases |ys|
  {
    var bs := [x] + ys;
    var n := |bs| - 1;
    if ys == [] {
      assert bs[..n] == [];
      var b := EncAll(names, x.pairs, table);
      assert b.bytes + [] == b.bytes;
      assert [] + ([BLOCK_TAG] + (Number(|x.pairs| / 2) + b.bytes)) == [BLOCK_TAG] + (Number(|x.pairs| / 2) + b.bytes);
    } else {
      var y, zs := ys[|ys| - 1], ys[..|ys| - 1];
      assert bs[n] == y && bs[..n] == [x] + zs;
      var l := EncAll(names, y.pairs, table);
      FrontFirst(names, x, zs, l.table);
      var a := EncFront(names, zs, l.table);
      var b := EncAll(names, x.pairs, a.table);
      var tail := [BLOCK_TAG] + (Number(|x.pairs| / 2) + b.bytes);
      assert [BLOCK_TAG] + (Number(|y.pairs| / 2) + (l.bytes + (a.bytes + tail))) ==
             [BLOCK_TAG] + (Number(|y.pairs| / 2) + (l.bytes + a.bytes)) + tail;
    }
  }

  lemma {:induction false} FrontIsBlocks(names: Names, bs: seq<Block>, table: Table)
    ensures EncFront(names, bs, table) == EncBlocks(names, bs, table)
  {
    if bs != [] {
      FrontIsBlocks(names, bs[1..], table);
      assert bs == [bs[0]] + bs[1..];
      FrontFirst(names, bs[0], bs[1..], table);
    }
  }

  lemma EncPair(names: Names, hi: int, lo: int, table: Table)
    requires Fits32(hi) && Fits32(lo)
    ensures var a := EncShared(names, Atom(INT64), table);
            Enc(names, Struct([Atom(INT64), Int(hi), Int(lo)]), table) ==
            Coded([STRUCTURE] + (Number(2) + (a.bytes + ([INTEGER] + Number(hi) + ([INTEGER] + Number(lo))))), a.table)
  {
    var ts := [Atom(INT64), Int(hi), Int(lo)];
    assert ts[1..] == [Int(hi), Int(lo)] && ts[1..][1..] == [Int(lo)] && ts[1..][1..][1..] == [];
    var a := EncShared(names, Atom(INT64), table);
    var hs, ls := [INTEGER] + Number(hi), [INTEGER] + Number(lo);
    assert EncAll(names, ts, table) == Coded(a.bytes + (hs + ls), a.table) by {
      EncOne(names, Int(lo), a.table);
      assert Enc(names, ts[0], table) == a && Enc(names, ts[1], a.table) == Coded(hs, a.table);
      assert Enc(names, Int(lo), a.table) == Coded(ls, a.table);
      hide Enc, EncShared, Number, EncInt;
      assert EncAll(names, ts[1..], a.table) == Coded(hs + ls, a.table);
    }
    hide EncAll, EncShared, Number;
  }

  lemma EncWide(names: Names, n: int, table: Table)
    requires !Fits32(n)
    ensures var a := EncShared(names, Atom(INT64), table);
            Enc(names, Int(n), table) ==
            Coded([STRUCTURE] + (Number(2) + (a.bytes + ([INTEGER] + Number(n / W32) + ([INTEGER] + Number(n % W32))))), a.table)
  {
    hide EncShared, Number;
    ThreeInRow([STRUCTURE], Number(2), EncShared(names, Atom(INT64), table).bytes, [INTEGER] + Number(n / W32) + ([INTEGER] + Number(n % W32)));
  }

  /** A structure $int64 of two integers of 32 bits has the bytes of the integer they are joined to, if that has
      more than 32 bits, and of no other. */
  lemma Int64Taken(names: Names, hi: int, lo: int, n: int, table: Table)
    requires Fits32(hi) && Fits32(lo) && -W64 / 2 <= n < W64 / 2
    ensures Enc(names, Struct([Atom(INT64), Int(hi), Int(lo)]), table) == Enc(names, Int(n), table) <==>
            n == Joined(hi, lo) && !Fits32(n)
  {
    EncPair(names, hi, lo, table);
    if Fits32(n) {
      assert Enc(names, Int(n), table).bytes[0] == INTEGER;
    } else {
      EncWide(names, n, table);
      hide Enc, Number, EncShared, Joined, Fits32;
      SameHalves(Number(2), EncShared(names, Atom(INT64), table).bytes, Number(hi), Number(lo), Number(n / W32), Number(n % W32));
      HalvesSame(hi, lo, n);
    }
  }

  lemma HalvesSame(hi: int, lo: int, n: int)
    requires Fits32(hi) && Fits32(lo) && -W64 / 2 <= n < W64 / 2
    ensures Number(hi) == Number(n / W32) && Number(lo) == Number(n % W32) <==> n == Joined(hi, lo)
  {
    SameNumber(hi, n / W32);
    SameNumber(lo, n % W32);
    HalfFits(n);
    hide Number;
    JoinedIs(hi, lo, n);
    OneResidue(n / W32, hi);
  }

  lemma OneResidue(a: int, b: int)
    requires Fits32(a) && Fits32(b)
    ensures a % W32 == b % W32 <==> a == b
  {
  }

  /** What can be received: every integer of 64 bits; every structure with a functor, other than $int64 of two
      arguments that are not both integers of 32 bits; every term with sendable parts. */
  lemma SendableTerms(t: Term)
    ensures match t
            case Var(_) => Sendable(t)
            case ObVar(_) => Sendable(t)
            case Atom(_) => Sendable(t)
            case Int(n) => -0x8000_0000_0000_0000 <= n <= 0x7fff_ffff_ffff_ffff ==> Sendable(t)
            case Cons(h, tl) => Sendable(h) && Sendable(tl) ==> Sendable(t)
            case Struct(args) =>
              && (1 <= |args| <= 0x1_0000_0000 && Sendables(args) && (|args| != 3 || args[0] != Atom([36, 105, 110, 116, 54, 52])) ==> Sendable(t))
              && (|args| == 3 && args[0] == Atom([36, 105, 110, 116, 54, 52]) && args[1].Int? && args[2].Int? ==>
                    -0x8000_0000 <= args[1].n <= 0x7fff_ffff && -0x8000_0000 <= args[2].n <= 0x7fff_ffff ==> Sendable(t))
            case Quant(q, b, body) => Sendable(q) && Sendable(b) && Sendable(body) ==> Sendable(t)
            case Subst(blocks, u) => blocks != [] && BlocksSendable(blocks) && Sendable(u) ==> Sendable(t)
  {
    if t.Struct? && |t.args| == 3 {
      var us, vs := t.args[1..], t.args[1..][1..];
      assert us[0] == t.args[1] && vs[0] == t.args[2] && vs[1..] == [];
      assert Sendables(vs) <==> Sendable(vs[0]) && Sendables([]);
      assert Sendables(us) <==> Sendable(us[0]) && Sendables(vs);
    }
  }

  lemma BlocksAreSendable(b: Block, bs: seq<Block>)
    requires |b.pairs| % 2 == 0 && |b.pairs| < 0x2_0000_0000 && Sendables(b.pairs) && BlocksSendable(bs)
    ensures BlocksSendable([b] + bs)
  {
    assert ([b] + bs)[1..] == bs;
  }

  /** An $int64 pair is received as the integer with the first number as its high half, and the low 32 bits of the
      second. */
  lemma PairReceived(wt: Table, rt: Table, hi: int, lo: int)
    requires -0x8000_0000 <= hi <= 0x7fff_ffff && -0x8000_0000 <= lo <= 0x7fff_ffff
    ensures Ren(Struct([Atom([36, 105, 110, 116, 54, 52]), Int(hi), Int(lo)]), wt, rt) ==
            Int(hi * 0x1_0000_0000 + if lo >= 0 then lo else lo + 0x1_0000_0000)
  {
  }

  lemma JoinedIs(hi: int, lo: int, n: int)
    ensures n / W32 == hi && n % W32 == lo % W32 <==> n == Joined(hi, lo)
  {
    assert n == n / W32 * W32 + n % W32;
  }

  lemma HalfFits(n: int)
    requires -W64 / 2 <= n < W64 / 2
    ensures Fits32(n / W32)
  {
  }

  lemma SameNumber(m: int, n: int)
    ensures Number(m) == Number(n) <==> m % W32 == n % W32
  {
    NumberRead(m);
    NumberRead(n);
    if m % W32 == n % W32 { LowBytes(m, n); }
  }

  lemma SameHalves(b: Bytes, a: Bytes, h: Bytes, l: Bytes, h': Bytes, l': Bytes)
    requires |h| == |h'| == 4 && |l| == |l'| == 4
    ensures [STRUCTURE] + (b + (a + ([INTEGER] + h + ([INTEGER] + l)))) == [STRUCTURE] + (b + (a + ([INTEGER] + h' + ([INTEGER] + l'))))
            <==> h == h' && l == l'
  {
    var x, y := [INTEGER] + h + ([INTEGER] + l), [INTEGER] + h' + ([INTEGER] + l');
    assert x[1..5] == h && x[6..] == l && y[1..5] == h' && y[6..] == l';
    var p := [STRUCTURE] + (b + a);
    assert [STRUCTURE] + (b + (a + x)) == p + x && [STRUCTURE] + (b + (a + y)) == p + y;
    assert (p + x)[|p|..] == x && (p + y)[|p|..] == y;
  }

  /** The last four bytes of a number depend only on its last 32 bits. */
  lemma LowBytes(m: int, n: int)
    requires m % W32 == n % W32
    ensures Number(m) == Number(n)
  {
    var k := n / W32 - m / W32;
    LowByte(m, n, k, 1, 0x100_0000);
    LowByte(m, n, k, 0x100, 0x1_0000);
    LowByte(m, n, k, 0x1_0000, 0x100);
    LowByte(m, n, k, 0x100_0000, 1);
  }

  lemma LowByte(m: int, n: int, k: int, d: int, e: int)
    requires n == m + k * W32 && ((d == 1 && e == 0x100_0000) || (d == 0x100 && e == 0x1_0000) || (d == 0x1_0000 && e == 0x100) || (d == 0x100_0000 && e == 1))
    ensures Low(n / d) == Low(m / d)
  {
    assert n / d == m / d + k * e * 0x100;
    LowMore(m / d, k * e);
  }

  lemma LowMore(a: int, b: int)
    ensures Low(a + b * 0x100) == Low(a)
  {
  }

  lemma ThreeInRow(a: Bytes, b: Bytes, c: Bytes, d: Bytes)
    ensures a + b + c + d == a + (b + (c + d))
  {
  }

  lemma EncOne(names: Names, t: Term, table: Table)
    ensures EncAll(names, [t], table) == Enc(names, t, table)
  {
    hide Enc;
    var a := Enc(names, t, table);
    assert EncAll(names, [], a.table) == Coded([], a.table) && [t][1..] == [] && a.bytes + [] == a.bytes;
  }
}
