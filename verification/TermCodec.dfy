/** Sending and receiving terms.  The receiver is proved against the bytes the sender writes: it
    gets the same term back, with variables of its own.
 */
module TermCodec {
  import opened EncodeMap
  import opened TermEncoding

  const CAPACITY := TABLE_MAX * TABLE_MAX

  // ------------------------------------------------------------------
  // The sender
  // ------------------------------------------------------------------

  class TermWriter {
    const names: Names
    const table: EncodeMap.Table<Term>
    var output: Bytes

    ghost predicate Valid()
      reads this, table
    {
      table.Valid() && NoRepeats(table.Contents())
    }

    constructor (names: Names)
      ensures Valid() && this.names == names && table.Contents() == [] && output == [] && fresh(table)
    {
      this.names, output := names, [];
      table := new EncodeMap.Table<Term>();
    }

    /** A variable or an atom: by its place if it has one, in full otherwise. */
    method EncodeWriteShared(t: Term) returns (ok: bool)
      requires Valid() && Shared(t) && |table.Contents()| <= CAPACITY
      modifies this, table
      ensures ok <==> Accepted(names, old(table.Contents()), EncShared(names, t, old(table.Contents())).table)
      ensures ok ==> Valid() && table.Contents() == EncShared(names, t, old(table.Contents())).table
      ensures ok ==> output == old(output) + EncShared(names, t, old(table.Contents())).bytes
    {
      PlaceIs(table.Contents(), t);
      AcceptedNew(names, table.Contents(), t);
      hide Accepted, NameOk;
      var val := table.LookUp(t);
      if val != -1 {
        if val >= 256 {
          output := output + [REF_OFFSET, val / 256, RefCode(t), val % 256];
        } else {
          output := output + [RefCode(t), val];
        }
        return true;
      }
      ok := table.Add(t);
      output := output + ([NewCode(t)] + NewName(names, t));
      ok := ok && NameOk(names, t);
    }

    /** encodeWriteTerm; false when the table is full or a name that has to be sent is too long. */
    method EncodeWriteTerm(t: Term) returns (ok: bool)
      requires Valid() && |table.Contents()| <= CAPACITY
      modifies this, table
      ensures ok <==> Accepted(names, old(table.Contents()), Enc(names, t, old(table.Contents())).table)
      ensures ok ==> Valid() && table.Contents() == Enc(names, t, old(table.Contents())).table
      ensures ok ==> output == old(output) + Enc(names, t, old(table.Contents())).bytes
      decreases t, 1
    {
      match t {
        case Int(n) =>
          ok := EncodeWriteInt(n);
        case Cons(_, _) =>
          ok := EncodeWriteCons(t);
        case Struct(args) =>
          ghost var out0, a := output, EncAll(names, args, table.Contents());
          output := output + [STRUCTURE] + Number(|args| - 1);
          ok := EncodeWriteTerms(args);
          BytesInRow(out0, [STRUCTURE], Number(|args| - 1), a.bytes, []);
        case Quant(_, _, _) =>
          ok := EncodeWriteQuant(t);
        case Subst(_, _) =>
          ok := EncodeWriteSubst(t);
        case _ =>
          ok := EncodeWriteShared(t);
      }
    }

    method EncodeWriteCons(t: Term) returns (ok: bool)
      requires Valid() && |table.Contents()| <= CAPACITY && t.Cons?
      modifies this, table
      ensures ok <==> Accepted(names, old(table.Contents()), Enc(names, t, old(table.Contents())).table)
      ensures ok ==> Valid() && table.Contents() == Enc(names, t, old(table.Contents())).table
      ensures ok ==> output == old(output) + Enc(names, t, old(table.Contents())).bytes
      decreases t, 0
    {
      hide NoRepeats, Enc, EncBlocks, Accepted, Grown;
      ghost var out0, tab0 := output, table.Contents();
      ghost var a := Enc(names, t.head, tab0);
      ghost var b := Enc(names, t.tail, a.table);
      AcceptedBoth(names, t.head, t.tail, tab0);
      ConsEncoded(names, t, tab0);
      output := output + [LIST];
      ok := EncodeWriteTerm(t.head);
      if ok { ok := EncodeWriteTerm(t.tail); }
      BytesInRow(out0, [LIST], a.bytes, b.bytes, []);
    }

    method EncodeWriteQuant(t: Term) returns (ok: bool)
      requires Valid() && |table.Contents()| <= CAPACITY && t.Quant?
      modifies this, table
      ensures ok <==> Accepted(names, old(table.Contents()), Enc(names, t, old(table.Contents())).table)
      ensures ok ==> Valid() && table.Contents() == Enc(names, t, old(table.Contents())).table
      ensures ok ==> output == old(output) + Enc(names, t, old(table.Contents())).bytes
      decreases t, 0
    {
      hide NoRepeats, Enc, EncBlocks, Accepted, Grown;
      ghost var out0, tab0 := output, table.Contents();
      ghost var a := Enc(names, t.q, tab0);
      ghost var b := Enc(names, t.bound, a.table);
      ghost var c := Enc(names, t.body, b.table);
      AcceptedBoth(names, t.q, t.bound, tab0);
      AcceptedMore(names, tab0, t.body, b.table);
      QuantEncoded(names, t, tab0);
      output := output + [QUANTIFIER];
      ok := EncodeWriteTerm(t.q);
      if ok { ok := EncodeWriteTerm(t.bound); }
      if ok { ok := EncodeWriteTerm(t.body); }
      BytesInRow(out0, [QUANTIFIER], a.bytes, b.bytes, c.bytes);
    }

    method EncodeWriteSubst(t: Term) returns (ok: bool)
      requires Valid() && |table.Contents()| <= CAPACITY && t.Subst?
      modifies this, table
      ensures ok <==> Accepted(names, old(table.Contents()), Enc(names, t, old(table.Contents())).table)
      ensures ok ==> Valid() && table.Contents() == Enc(names, t, old(table.Contents())).table
      ensures ok ==> output == old(output) + Enc(names, t, old(table.Contents())).bytes
      decreases t, 0
    {
      hide NoRepeats, Enc, EncBlocks, Accepted, Grown;
      ghost var out0, tab0 := output, table.Contents();
      ghost var a := EncBlocks(names, t.blocks, tab0);
      ghost var b := Enc(names, t.t, a.table);
      EncBlocksGrown(names, t.blocks, tab0);
      AcceptedMore(names, tab0, t.t, a.table);
      SubstEncoded(names, t, tab0);
      output := output + [SUBSTITUTION];
      ok := EncodeWriteSub(t.blocks);
      if ok {
        output := output + [SUBSTITUTION_END];
        ok := EncodeWriteTerm(t.t);
      }
      BytesInRow(out0, [SUBSTITUTION], a.bytes, [SUBSTITUTION_END], b.bytes);
    }

    /** An integer: 32 bits, or a structure of two 32-bit halves. */
    method EncodeWriteInt(n: int) returns (ok: bool)
      requires Valid() && |table.Contents()| <= CAPACITY
      modifies this, table
      ensures ok <==> Accepted(names, old(table.Contents()), EncInt(names, n, old(table.Contents())).table)
      ensures ok ==> Valid() && table.Contents() == EncInt(names, n, old(table.Contents())).table
      ensures ok ==> output == old(output) + EncInt(names, n, old(table.Contents())).bytes
    {
      if Fits32(n) {
        output := output + ([INTEGER] + Number(n));
        return true;
      }
      ghost var out0, a := output, EncShared(names, Atom(INT64), table.Contents());
      output := output + ([STRUCTURE] + Number(2));
      ok := EncodeWriteShared(Atom(INT64));
      output := output + ([INTEGER] + Number(n / W32));
      output := output + ([INTEGER] + Number(n % W32));
      if ok { BytesInRow(out0, [STRUCTURE] + Number(2), a.bytes, [INTEGER] + Number(n / W32), [INTEGER] + Number(n % W32)); }
    }

    method EncodeWriteTerms(ts: seq<Term>) returns (ok: bool)
      requires Valid() && |table.Contents()| <= CAPACITY
      modifies this, table
      ensures ok <==> Accepted(names, old(table.Contents()), EncAll(names, ts, old(table.Contents())).table)
      ensures ok ==> Valid() && table.Contents() == EncAll(names, ts, old(table.Contents())).table
      ensures ok ==> output == old(output) + EncAll(names, ts, old(table.Contents())).bytes
      decreases ts, 0
    {
      hide NoRepeats;
      ghost var out0, tab0 := output, table.Contents();
      ok := true;
      assert ts[0..] == ts;
      ghost var done: Bytes := [];
      for i := 0 to |ts|
        invariant ok ==> Valid() && |table.Contents()| <= CAPACITY && output == out0 + done
        invariant ok ==> EncAll(names, ts, tab0) ==
                         Coded(done + EncAll(names, ts[i..], table.Contents()).bytes, EncAll(names, ts[i..], table.Contents()).table)
        invariant Accepted(names, tab0, EncAll(names, ts, tab0).table) <==>
                  ok && Accepted(names, table.Contents(), EncAll(names, ts[i..], table.Contents()).table)
      {
        if ok {
          ghost var tab := table.Contents();
          ghost var a := Enc(names, ts[i], tab);
          NextEncoded(names, ts, i, tab);
          EncGrown(names, ts[i], tab);
          AcceptedMoreAll(names, tab, ts[i + 1..], a.table);
          ok := EncodeWriteTerm(ts[i]);
          BytesInRow(done, a.bytes, EncAll(names, ts[i + 1..], a.table).bytes, [], []);
          BytesInRow(out0, done, a.bytes, [], []);
          done := done + a.bytes;
        }
      }
    }

    /** encodeWriteSub: the blocks, the last one first. */
    method EncodeWriteSub(bs: seq<Block>) returns (ok: bool)
      requires Valid() && |table.Contents()| <= CAPACITY
      modifies this, table
      ensures ok <==> Accepted(names, old(table.Contents()), EncBlocks(names, bs, old(table.Contents())).table)
      ensures ok ==> Valid() && table.Contents() == EncBlocks(names, bs, old(table.Contents())).table
      ensures ok ==> output == old(output) + EncBlocks(names, bs, old(table.Contents())).bytes
      decreases bs, 0
    {
      hide NoRepeats;
      if bs == [] {
        return true;
      }
      ghost var out0, tab0 := output, table.Contents();
      ghost var a := EncBlocks(names, bs[1..], tab0);
      ghost var b := EncAll(names, bs[0].pairs, a.table);
      EncBlocksGrown(names, bs[1..], tab0);
      AcceptedMoreAll(names, tab0, bs[0].pairs, a.table);
      ok := EncodeWriteSub(bs[1..]);
      if ok {
        output := output + [BLOCK_TAG] + Number(|bs[0].pairs| / 2);
        ok := EncodeWriteTerms(bs[0].pairs);
      }
      BytesInRow(out0, a.bytes, [BLOCK_TAG], Number(|bs[0].pairs| / 2), b.bytes);
    }
  }

  lemma AcceptedMore(names: Names, tab0: seq<Term>, t: Term, tab1: seq<Term>)
    requires Grown(tab0, tab1)
    ensures var tab2 := Enc(names, t, tab1).table;
            Accepted(names, tab0, tab2) <==> Accepted(names, tab0, tab1) && Accepted(names, tab1, tab2)
    ensures Accepted(names, tab0, tab1) ==> |tab1| <= CAPACITY
    ensures Grown(tab0, Enc(names, t, tab1).table)
  {
    hide Enc;
    EncGrown(names, t, tab1);
    AcceptedTwice(names, tab0, tab1, Enc(names, t, tab1).table);
  }

  lemma AcceptedMoreAll(names: Names, tab0: seq<Term>, ts: seq<Term>, tab1: seq<Term>)
    requires Grown(tab0, tab1)
    ensures var tab2 := EncAll(names, ts, tab1).table;
            Accepted(names, tab0, tab2) <==> Accepted(names, tab0, tab1) && Accepted(names, tab1, tab2)
    ensures Accepted(names, tab0, tab1) ==> |tab1| <= CAPACITY
    ensures Grown(tab0, EncAll(names, ts, tab1).table)
  {
    hide EncAll;
    EncAllGrown(names, ts, tab1);
    AcceptedTwice(names, tab0, tab1, EncAll(names, ts, tab1).table);
  }

  lemma AcceptedBoth(names: Names, t: Term, u: Term, table: seq<Term>)
    ensures var a := Enc(names, t, table).table;
            var b := Enc(names, u, a).table;
            && Grown(table, a) && Grown(table, b) && (Accepted(names, table, a) ==> |a| <= CAPACITY)
            && (Accepted(names, table, b) <==> Accepted(names, table, a) && Accepted(names, a, b))
  {
    hide Enc;
    EncGrown(names, t, table);
    AcceptedMore(names, table, u, Enc(names, t, table).table);
  }

  lemma AcceptedNew(names: Names, table: seq<Term>, t: Term)
    ensures Accepted(names, table, table + [t]) <==> |table| < CAPACITY && NameOk(names, t)
    ensures |table| <= CAPACITY ==> Accepted(names, table, table)
  {
    assert (table + [t])[|table|] == t;
  }

  lemma TableGrows(names: Names, t: Term, table: seq<Term>)
    ensures |table| <= |Enc(names, t, table).table|
  {
    EncGrown(names, t, table);
  }

  lemma NextEncoded(names: Names, ts: seq<Term>, i: nat, table: seq<Term>)
    requires i < |ts|
    ensures var a := Enc(names, ts[i], table);
            var b := EncAll(names, ts[i + 1..], a.table);
            EncAll(names, ts[i..], table) == Coded(a.bytes + b.bytes, b.table)
    ensures Sendables(ts[i..]) ==> Sendable(ts[i]) && Sendables(ts[i + 1..])
  {
    assert ts[i..][1..] == ts[i + 1..];
  }

  lemma ConsEncoded(names: Names, t: Term, table: seq<Term>)
    requires t.Cons?
    ensures var a := Enc(names, t.head, table);
            var b := Enc(names, t.tail, a.table);
            Enc(names, t, table) == Coded([LIST] + (a.bytes + b.bytes), b.table)
  {
  }

  lemma QuantEncoded(names: Names, t: Term, table: seq<Term>)
    requires t.Quant?
    ensures var a := Enc(names, t.q, table);
            var b := Enc(names, t.bound, a.table);
            var c := Enc(names, t.body, b.table);
            Enc(names, t, table) == Coded([QUANTIFIER] + (a.bytes + (b.bytes + c.bytes)), c.table)
  {
  }

  lemma SubstEncoded(names: Names, t: Term, table: seq<Term>)
    requires t.Subst?
    ensures var a := EncBlocks(names, t.blocks, table);
            var b := Enc(names, t.t, a.table);
            Enc(names, t, table) == Coded([SUBSTITUTION] + (a.bytes + ([SUBSTITUTION_END] + b.bytes)), b.table)
  {
  }

  lemma BytesInRow(a: Bytes, b: Bytes, c: Bytes, d: Bytes, e: Bytes)
    ensures a + b + c + d + e == a + (b + c + (d + e))
    ensures a + b + c + d == a + (b + (c + d)) && a + b + c == a + (b + c)
    ensures a + b + c + d == a + (b + c + d) && a + b + c + d + e == a + (b + (c + (d + e)))
  {
  }

  lemma PlaceIs(table: seq<Term>, t: Term)
    requires NoRepeats(table)
    ensures forall p :: 0 <= p < |table| && table[p] == t ==> p == Place(table, t)
  {
  }

  // ------------------------------------------------------------------
  // The receiver
  // ------------------------------------------------------------------

  /** A term is about to be received: the sender's table is wt, the receiver's rt. */
  ghost predicate Coming(names: Names, t: Term, wt: seq<Term>, rest: Bytes, rt: seq<Term>, next: nat) {
    && Sendable(t) && Lockstep(wt, rt, next) && Accepted(names, wt, Enc(names, t, wt).table)
    && (EndsBare(names, t, wt) ==> NotName(rest))
  }

  /** It has been received: the tables are in lockstep again. */
  ghost predicate Arrived(names: Names, t: Term, wt: seq<Term>, rt: seq<Term>, rt': seq<Term>, next: nat, u: Term)
    requires Sendable(t)
  {
    var wt' := Enc(names, t, wt).table;
    Lockstep(wt', rt', next) && rt <= rt' && u == Ren(t, wt', rt')
  }

  /** i terms of ts have been received, as us. */
  ghost predicate Midway(names: Names, ts: seq<Term>, i: nat, wt0: seq<Term>, wt: seq<Term>, rest: Bytes,
                         rt0: seq<Term>, rt: seq<Term>, next: nat, us: seq<Term>, input: Bytes)
  {
    && i <= |ts| && Sendables(ts) && Sendables(ts[i..]) && (AllEndBare(names, ts[i..], wt) ==> NotName(rest))
    && Lockstep(wt, rt, next) && wt0 <= wt && rt0 <= rt
    && Knowns(ts[..i], wt) && us == Rens(ts[..i], wt, rt)
    && EncAll(names, ts[i..], wt).table == EncAll(names, ts, wt0).table && Accepted(names, wt, EncAll(names, ts, wt0).table)
    && input == EncAll(names, ts[i..], wt).bytes + rest
  }

  class TermReader {
    const table: EncodeMap.Table<Term>
    var input: Bytes
    var next: nat  // for new variables

    constructor (input: Bytes, next: nat)
      ensures table.Valid() && table.Contents() == [] && fresh(table) && this.input == input && this.next == next
    {
      this.input, this.next := input, next;
      table := new EncodeMap.Table<Term>();
    }

    method EncodeReadChar() returns (ok: bool, c: Byte)
      modifies this`input
      ensures ok <==> |old(input)| > 0
      ensures ok ==> c == old(input)[0] && input == old(input)[1..]
      ensures !ok ==> input == old(input)
    {
      if input == [] {
        return false, 0;
      }
      ok, c := true, input[0];
      input := input[1..];
    }

    method EncodeReadNumber() returns (ok: bool, n: int)
      modifies this`input
      ensures ok <==> |old(input)| >= 4
      ensures ok ==> n == NumberOf(old(input)[..4]) && input == old(input)[4..]
    {
      ghost var all := input;
      var c;
      ok, c := EncodeReadChar();
      n := c;
      var more;
      more, c := EncodeReadChar();
      ok, n := ok && more, n * 256 + c;
      more, c := EncodeReadChar();
      ok, n := ok && more, n * 256 + c;
      more, c := EncodeReadChar();
      ok, n := ok && more, n * 256 + c;
    }

    /** encodeReadAtom */
    method EncodeReadAtom() returns (ok: bool, name: Bytes)
      modifies this`input
      ensures ok <==> |old(input)| > 0 && |old(input)| > old(input)[0]
      ensures ok ==> name == old(input)[1..1 + old(input)[0]] && input == old(input)[1 + old(input)[0]..]
    {
      ghost var all := input;
      var length;
      ok, length := EncodeReadChar();
      name := [];
      var i := 0;
      while i < length && ok
        invariant 0 <= i <= length
        invariant ok ==> |all| > i && length == all[0] && name == all[1..1 + i] && input == all[1 + i..]
        invariant !ok ==> |all| == 0 || |all| <= all[0]
      {
        var c;
        ok, c := EncodeReadChar();
        name := name + [c];
        i := i + 1;
      }
    }

    /** A reference to an earlier entry: the page and the place on it. */
    method ReadPlace(i: nat, j: nat, ghost names: Names, ghost t: Term, ghost wt: seq<Term>) returns (u: Term)
      requires table.Valid() && Shared(t) && Lockstep(wt, table.Contents(), next)
      requires t in wt && j < 256 && 256 * i + j == Place(wt, t)
      ensures Arrived(names, t, wt, table.Contents(), table.Contents(), next, u)
    {
      u := table.LookUpPlace(i, j);
    }

    /** A new variable; its name, if it was sent with one, is skipped. */
    method ReadVariable(ob: bool, ghost names: Names, ghost t: Term, ghost wt: seq<Term>, ghost rest: Bytes)
      returns (ok: bool, u: Term)
      requires table.Valid() && Coming(names, t, wt, rest, table.Contents(), next)
      requires (if ob then t.ObVar? else t.Var?) && t !in wt && input == NewName(names, t) + rest
      modifies this, table
      ensures ok && table.Valid() && input == rest && Arrived(names, t, wt, old(table.Contents()), table.Contents(), next, u)
    {
      hide Lockstep, NewName, Enc, Arrived, Sendable, NotName, Coming, NameOk, PagesOk, Flat;
      ghost var rt := table.Contents();
      u := if ob then ObVar(next) else Var(next);
      FreshVariable(names, t, wt, rest, rt, next, u);
      SkipName(names, t, rest);
      next := next + 1;
      ok := table.Add(u);
    }

    /** The name of a variable, if it was sent with one, is skipped. */
    method SkipName(ghost names: Names, ghost t: Term, ghost rest: Bytes)
      requires Shared(t) && !t.Atom? && NameOk(names, t) && (names(t).NoName? ==> NotName(rest)) && input == NewName(names, t) + rest
      modifies this`input
      ensures input == rest
    {
      if names(t).Name? { NamedBytes(names, t, rest); } else { UnnamedBytes(names, t, rest); }
      hide NewName;
      var ok, c := EncodeReadChar();
      if ok && c == NAME {
        var length;
        ok, length := EncodeReadChar();
        input := input[length..];
      } else if ok {
        input := [c] + input;
      }
    }

    method ReadAtom(ghost names: Names, ghost t: Term, ghost wt: seq<Term>, ghost rest: Bytes) returns (ok: bool, u: Term)
      requires table.Valid() && Coming(names, t, wt, rest, table.Contents(), next)
      requires t.Atom? && t !in wt && input == NewName(names, t) + rest
      modifies this, table
      ensures ok && table.Valid() && input == rest && Arrived(names, t, wt, old(table.Contents()), table.Contents(), next, u)
    {
      hide Lockstep, NewName, NameBytes, Enc, Arrived, Sendable, NotName, Coming, NameOk, PagesOk, Flat;
      ghost var rt := table.Contents();
      NewAtom(names, t, wt, rest, rt, next);
      AtomBytes(t.name, rest);
      var name;
      ok, name := EncodeReadAtom();
      u := Atom(name);
      if ok {
        ok := table.Add(u);
      }
    }

    /** encodeReadTerm */
    method EncodeReadTerm(ghost names: Names, ghost t: Term, ghost wt: seq<Term>, ghost rest: Bytes) returns (ok: bool, u: Term)
      requires table.Valid() && Coming(names, t, wt, rest, table.Contents(), next)
      requires input == Enc(names, t, wt).bytes + rest
      modifies this, table
      ensures ok && table.Valid() && input == rest && Arrived(names, t, wt, old(table.Contents()), table.Contents(), next, u)
      decreases |input|, 0
    {
      hide Arrived, Lockstep, Enc, Sendable;
      First(names, t, wt, rest, table.Contents(), next);
      var c;
      ok, c := EncodeReadChar();
      u := Int(0);
      if c == REF_OFFSET || c == REFERENCE || c == OB_REFERENCE || c == ATOM_REF {
        ok, u := ReadReference(c, names, t, wt, rest);
      } else if c == VARIABLE || c == OB_VARIABLE {
        NewBytes(names, t, wt, rest);
        ok, u := ReadVariable(c == OB_VARIABLE, names, t, wt, rest);
      } else if c == ATOM {
        NewBytes(names, t, wt, rest);
        ok, u := ReadAtom(names, t, wt, rest);
      } else if c == LIST {
        ok, u := ReadCons(names, t, wt, rest);
      } else if c == QUANTIFIER {
        ok, u := ReadQuant(names, t, wt, rest);
      } else if c == INTEGER {
        ok, u := ReadInteger(names, t, wt, rest);
      } else if c == STRUCTURE {
        ok, u := ReadStructure(names, t, wt, rest);
      } else if c == SUBSTITUTION {
        ok, u := ReadSubst(names, t, wt, rest);
      } else {
        ok := false;
      }
    }

    method ReadReference(c: Byte, ghost names: Names, ghost t: Term, ghost wt: seq<Term>, ghost rest: Bytes) returns (ok: bool, u: Term)
      requires table.Valid() && Coming(names, t, wt, rest, table.Contents(), next)
      requires Enc(names, t, wt).bytes != [] && Shared(t) && t in wt && c == Enc(names, t, wt).bytes[0] && input == Enc(names, t, wt).bytes[1..] + rest
      modifies this, table
      ensures ok && table.Valid() && input == rest && Arrived(names, t, wt, old(table.Contents()), table.Contents(), next, u)
      decreases |input|, 1
    {
      TableGrows(names, t, wt);
      RefBytes(names, t, wt, rest);
      u := Int(0);
      var offset, place := 0, 0;
      if c == REF_OFFSET {
        var code;
        ok, offset := EncodeReadChar();
        if ok { ok, code := EncodeReadChar(); }
      }
      ok, place := EncodeReadChar();
      if ok {
        u := ReadPlace(offset, place, names, t, wt);
      }
    }

    method ReadInteger(ghost names: Names, ghost t: Term, ghost wt: seq<Term>, ghost rest: Bytes) returns (ok: bool, u: Term)
      requires table.Valid() && Coming(names, t, wt, rest, table.Contents(), next)
      requires t.Int? && Fits32(t.n) && input == Number(t.n) + rest
      modifies this, table
      ensures ok && table.Valid() && input == rest && Arrived(names, t, wt, old(table.Contents()), table.Contents(), next, u)
      decreases |input|, 1
    {
      NumberThen(t.n, rest);
      NumberRead(t.n);
      var n;
      ok, n := EncodeReadNumber();
      u := Int(n);
    }

    /** The next of several terms. */
    method ReadNext(ghost names: Names, ghost ts: seq<Term>, ghost i: nat, ghost wt0: seq<Term>, ghost wt: seq<Term>,
                    ghost rest: Bytes, ghost rt0: seq<Term>, ghost us: seq<Term>) returns (ok: bool, u: Term, ghost wt': seq<Term>)
      requires table.Valid() && Midway(names, ts, i, wt0, wt, rest, rt0, table.Contents(), next, us, input) && i < |ts|
      modifies this, table
      ensures ok && table.Valid() && Midway(names, ts, i + 1, wt0, wt', rest, rt0, table.Contents(), next, us + [u], input)
      ensures |input| < |old(input)| && u == Ren(ts[i], wt', table.Contents())
      decreases |input|, 1
    {
      hide *;
      ghost var rt, next0, input0 := table.Contents(), next, input;
      ghost var rest1 := MidwayNext(names, ts, i, wt0, wt, rest, rt0, rt, next0, us, input);
      ok, u := EncodeReadTerm(names, ts[i], wt, rest1);
      wt' := MidwayStep(names, ts, i, wt0, wt, rest, rt0, rt, next0, us, input0, rest1, table.Contents(), next, u);
    }

    method ReadCons(ghost names: Names, ghost t: Term, ghost wt: seq<Term>, ghost rest: Bytes) returns (ok: bool, u: Term)
      requires table.Valid() && Coming(names, t, wt, rest, table.Contents(), next)
      requires t.Cons? && Enc(names, t, wt).bytes != [] && input == Enc(names, t, wt).bytes[1..] + rest
      modifies this, table
      ensures ok && table.Valid() && input == rest && Arrived(names, t, wt, old(table.Contents()), table.Contents(), next, u)
      decreases |input|, 2
    {
      hide *;
      ghost var ts, rt, next0, wt1, wt2 := [t.head, t.tail], table.Contents(), next, wt, wt;
      ConsParts(names, t, wt, rest, rt, next);
      var h, tl;
      ok, h, wt1 := ReadNext(names, ts, 0, wt, wt, rest, rt, []);
      ok, tl, wt2 := ReadNext(names, ts, 1, wt, wt1, rest, rt, [] + [h]);
      u := Cons(h, tl);
      assert [] + [h] + [tl] == [h, tl];
      ConsWhole(names, t, wt, rest, rt, next0, wt2, table.Contents(), next, [h, tl], input);
    }

    method ReadQuant(ghost names: Names, ghost t: Term, ghost wt: seq<Term>, ghost rest: Bytes) returns (ok: bool, u: Term)
      requires table.Valid() && Coming(names, t, wt, rest, table.Contents(), next)
      requires t.Quant? && Enc(names, t, wt).bytes != [] && input == Enc(names, t, wt).bytes[1..] + rest
      modifies this, table
      ensures ok && table.Valid() && input == rest && Arrived(names, t, wt, old(table.Contents()), table.Contents(), next, u)
      decreases |input|, 2
    {
      hide *;
      ghost var ts, rt, next0, wt1, wt2, wt3 := [t.q, t.bound, t.body], table.Contents(), next, wt, wt, wt;
      QuantParts(names, t, wt, rest, rt, next);
      var q, bound, body;
      ok, q, wt1 := ReadNext(names, ts, 0, wt, wt, rest, rt, []);
      ok, bound, wt2 := ReadNext(names, ts, 1, wt, wt1, rest, rt, [] + [q]);
      ok, body, wt3 := ReadNext(names, ts, 2, wt, wt2, rest, rt, [] + [q] + [bound]);
      u := Quant(q, bound, body);
      assert [] + [q] + [bound] + [body] == [q, bound, body];
      QuantWhole(names, t, wt, rest, rt, next0, wt3, table.Contents(), next, [q, bound, body], input);
    }

    /** A structure; $int64 with two integers stands for an integer of 64 bits. */
    method ReadStructure(ghost names: Names, ghost t: Term, ghost wt: seq<Term>, ghost rest: Bytes) returns (ok: bool, u: Term)
      requires table.Valid() && Coming(names, t, wt, rest, table.Contents(), next)
      requires (t.Struct? || (t.Int? && !Fits32(t.n))) && Enc(names, t, wt).bytes != [] && input == Enc(names, t, wt).bytes[1..] + rest
      modifies this, table
      ensures ok && table.Valid() && input == rest && Arrived(names, t, wt, old(table.Contents()), table.Contents(), next, u)
      decreases |input|, 2
    {
      hide *;
      ghost var rt, next0 := table.Contents(), next;
      ghost var rest1 := StructureComing(names, t, wt, rest, rt, next);
      NumberThen(if t.Struct? then |t.args| - 1 else 2, Enc(names, FunctorOf(t), wt).bytes + rest1);
      u := Int(0);
      var length, functor;
      ok, length := EncodeReadNumber();
      ok, functor := EncodeReadTerm(names, FunctorOf(t), wt, rest1);
      ghost var wt1 := wt;
      if t.Struct? {
        StructParts(names, t);
        wt1 := FunctorArrived(names, t, wt, rest, rt, next0, rest1, table.Contents(), next, functor);
      } else {
        IntFunctor(names, t, wt, rt, table.Contents(), next, functor);
      }
      if length == 2 && functor == Atom(INT64) {
        PairFunctor(t);
        HalvesComing(names, t, wt, rest);
        ok, u := ReadHalves(HighOf(t), LowOf(t), rest);
        HalvesWhole(names, t, wt, rt, table.Contents(), next, functor);
      } else {
        ok, u := ReadArguments(length, functor, names, t, wt, wt1, rest, rt, next0);
      }
    }

    /** A substitution: blocks until the end byte, and the term. */
    method ReadSubst(ghost names: Names, ghost t: Term, ghost wt: seq<Term>, ghost rest: Bytes) returns (ok: bool, u: Term)
      requires table.Valid() && Coming(names, t, wt, rest, table.Contents(), next)
      requires t.Subst? && Enc(names, t, wt).bytes != [] && input == Enc(names, t, wt).bytes[1..] + rest
      modifies this, table
      ensures ok && table.Valid() && input == rest && Arrived(names, t, wt, old(table.Contents()), table.Contents(), next, u)
      decreases |input|, 2
    {
      hide *;
      ghost var rt, next0 := table.Contents(), next;
      ghost var rest1 := SubstComing(names, t, wt, rest, rt, next);
      var sub, v;
      ok, sub := EncodeReadSub(names, t.blocks, wt, rest1);
      ghost var rt1, next1 := table.Contents(), next;
      TermComing(names, t, wt, rest, rt, next0, rt1, next1, sub, rest1);
      ok, v := EncodeReadTerm(names, t.t, EncBlocks(names, t.blocks, wt).table, rest);
      u := Subst(sub, v);
      SubstWhole(names, t, wt, rest, rt, next0, rt1, next1, sub, table.Contents(), next, v);
    }

    /** encodeReadSub: each block received goes in front of those received before. */
    method EncodeReadSub(ghost names: Names, ghost bs: seq<Block>, ghost wt: seq<Term>, ghost rest: Bytes)
      returns (ok: bool, sub: seq<Block>)
      requires table.Valid() && BlocksComing(names, bs, wt, table.Contents(), next)
      requires input == EncBlocks(names, bs, wt).bytes + ([SUBSTITUTION_END] + rest)
      modifies this, table
      ensures ok && table.Valid() && input == rest && |input| < |old(input)|
      ensures BlocksArrived(names, bs, wt, old(table.Contents()), table.Contents(), next, sub)
      decreases |input|, 1
    {
      hide *;
      ghost var rt0, wti, todo := table.Contents(), wt, input;
      ghost var k: nat := |bs|;
      SubStart(names, bs, wt, rest, rt0, next);
      SubLook(names, bs, k, wt, wti, rest, rt0, rt0, next, [], todo);
      var c;
      ok, c := EncodeReadChar();
      sub := [];
      while ok && c != SUBSTITUTION_END
        invariant ok && table.Valid() && k <= |bs| && |todo| > 0 && c == todo[0] && input == todo[1..] && |todo| <= |old(input)|
        invariant SubMid(names, bs, k, wt, wti, rest, rt0, table.Contents(), next, sub, todo)
        invariant c != SUBSTITUTION_END ==> k > 0
        decreases k
      {
        ghost var rest1 := BlockComing(names, bs, k, wt, wti, rest, rt0, table.Contents(), next, sub, todo);
        ghost var rt, next1 := table.Contents(), next;
        NumberThen(|bs[k - 1].pairs| / 2, EncAll(names, bs[k - 1].pairs, wti).bytes + rest1);
        var size, pairs;
        ok, size := EncodeReadNumber();
        ghost var wt';
        ok, pairs, wt' := ReadPairs(size, names, bs[k - 1].pairs, wti, rest1);
        BlockArrived(names, bs, k, wt, wti, rest, rt0, rt, next1, sub, todo, rest1, wt', table.Contents(), next, pairs);
        sub := [Block(pairs)] + sub;
        k, wti, todo := k - 1, wt', rest1;
        SubLook(names, bs, k, wt, wti, rest, rt0, table.Contents(), next, sub, todo);
        ok, c := EncodeReadChar();
      }
      SubEnd(names, bs, k, wt, wti, rest, rt0, table.Contents(), next, sub, todo);
    }

    /** The domains and ranges of a block. */
    method ReadPairs(size: int, ghost names: Names, ghost ts: seq<Term>, ghost wt: seq<Term>, ghost rest: Bytes)
      returns (ok: bool, us: seq<Term>, ghost wt': seq<Term>)
      requires table.Valid() && |ts| == 2 * size && Sendables(ts) && NotName(rest) && Lockstep(wt, table.Contents(), next)
      requires Accepted(names, wt, EncAll(names, ts, wt).table) && input == EncAll(names, ts, wt).bytes + rest
      modifies this, table
      ensures ok && table.Valid() && input == rest && wt' == EncAll(names, ts, wt).table && us == Rens(ts, wt', table.Contents())
      ensures Lockstep(wt', table.Contents(), next) && old(table.Contents()) <= table.Contents()
      decreases |input|, 2
    {
      hide *;
      ghost var rt := table.Contents();
      MidwayStart(names, ts, wt, rest, rt, next);
      ok, us, wt' := true, [], wt;
      for i := 0 to size
        invariant ok && table.Valid() && |input| <= |old(input)|
        invariant Midway(names, ts, 2 * i, wt, wt', rest, rt, table.Contents(), next, us, input)
      {
        var dom, ran;
        ok, dom, wt' := ReadNext(names, ts, 2 * i, wt, wt', rest, rt, us);
        ok, ran, wt' := ReadNext(names, ts, 2 * i + 1, wt, wt', rest, rt, us + [dom]);
        us := us + [dom] + [ran];
      }
      MidwayEnd(names, ts, wt, wt', rest, rt, table.Contents(), next, us, input);
    }

    /** The two halves of an integer. */
    method ReadHalves(ghost hi: int, ghost lo: int, ghost rest: Bytes) returns (ok: bool, u: Term)
      requires input == Halves(hi, lo) + rest
      modifies this`input
      ensures ok && input == rest && u == Int(Wrap64(hi % W32 * W32 + lo % W32))
    {
      hide *;
      NumberRead(hi);
      NumberRead(lo);
      HalvesThen(hi, lo, rest);
      var c, part1, part2;
      ok, c := EncodeReadChar();
      ok, part1 := EncodeReadNumber();
      ok, c := EncodeReadChar();
      ok, part2 := EncodeReadNumber();
      u := Int(Wrap64(part1 * W32 + part2));
    }

    method ReadArguments(length: int, functor: Term, ghost names: Names, ghost t: Term, ghost wt: seq<Term>, ghost wt1: seq<Term>,
                         ghost rest: Bytes, ghost rt: seq<Term>, ghost next0: nat) returns (ok: bool, u: Term)
      requires table.Valid() && Coming(names, t, wt, rest, rt, next0) && t.Struct? && t.args != [] && length == |t.args| - 1
      requires !IsPair(t.args)
      requires Midway(names, t.args, 1, wt, wt1, rest, rt, table.Contents(), next, [functor], input)
      modifies this, table
      ensures ok && table.Valid() && input == rest && Arrived(names, t, wt, rt, table.Contents(), next, u)
      decreases |input|, 2
    {
      hide *;
      var args := [functor];
      ok := true;
      var i := 1;
      ghost var wti := wt1;
      while i <= length
        invariant 1 <= i <= length + 1 && ok && table.Valid() && |input| <= |old(input)|
        invariant Midway(names, t.args, i, wt, wti, rest, rt, table.Contents(), next, args, input)
      {
        var arg;
        ok, arg, wti := ReadNext(names, t.args, i, wt, wti, rest, rt, args);
        args := args + [arg];
        i := i + 1;
      }
      u := Struct(args);
      StructWhole(names, t, wt, rest, rt, next0, wti, table.Contents(), next, args, input);
    }
  }

  /** What is sent is received: the same term, with other variables in place of the sender's. */
  method SendAndReceive(names: Names, t: Term) returns (ok: bool, u: Term, ghost wt: seq<Term>, ghost rt: seq<Term>, ghost next: nat)
    requires Sendable(t)
    ensures ok <==> Accepted(names, [], Enc(names, t, []).table)
    ensures ok ==> Known(t, wt) && Lockstep(wt, rt, next) && u == Ren(t, wt, rt)
    ensures ok ==> (Ren(u, rt, wt) == t <==> Unaltered(t))
  {
    hide Enc, Sendable, Lockstep, Known, Ren, Unaltered, Accepted;
    wt, rt, next, u := Enc(names, t, []).table, [], 0, Int(0);
    var writer := new TermWriter(names);
    ok := writer.EncodeWriteTerm(t);
    if ok {
      var reader := new TermReader(writer.output, 0);
      NothingSent();
      EncGrown(names, t, []);
      assert [] + Enc(names, t, []).bytes == Enc(names, t, []).bytes + [];
      ok, u := reader.EncodeReadTerm(names, t, [], []);
      rt, next := reader.table.Contents(), reader.next;
      RoundTrip(t, wt, rt, next);
    }
  }

  lemma NothingSent()
    ensures Lockstep([], [], 0)
  {
  }

  lemma AtomBytes(a: Bytes, rest: Bytes)
    requires |a| < 256
    ensures var all := NameBytes(a) + rest;
            |all| > 0 && all[0] == |a| && |all| > |a| && all[1..1 + |a|] == a && all[1 + |a|..] == rest
  {
  }

  lemma NamedBytes(names: Names, t: Term, rest: Bytes)
    requires Shared(t) && !t.Atom? && NameOk(names, t) && names(t).Name?
    ensures var all := NewName(names, t) + rest;
            && |all| > 1 && all[0] == NAME && all[1] == |names(t).s| && all[1..][1..] == names(t).s + rest
            && all[1..][1..][|names(t).s|..] == rest
  {
    var s := names(t).s;
    assert NewName(names, t) == [NAME] + NameBytes(s);
    hide *;
    NameThen(s, rest);
  }

  lemma NameThen(s: Bytes, rest: Bytes)
    requires |s| < 256
    ensures var all := [NAME] + NameBytes(s) + rest;
            && |all| > 1 && all[0] == NAME && all[1] == |s| && all[1..][1..] == s + rest && all[1..][1..][|s|..] == rest
  {
    assert ([NAME] + NameBytes(s) + rest)[1..] == [|s|] + (s + rest);
    assert ([|s|] + (s + rest))[1..] == s + rest;
  }

  lemma UnnamedBytes(names: Names, t: Term, rest: Bytes)
    requires Shared(t) && !t.Atom? && NameOk(names, t) && names(t).NoName?
    ensures NewName(names, t) + rest == rest
  {
  }

  lemma NewAtom(names: Names, t: Term, wt: seq<Term>, rest: Bytes, rt: seq<Term>, next: nat)
    requires Coming(names, t, wt, rest, rt, next) && t.Atom? && t !in wt
    ensures |t.name| < 256 && Shared(t) && NewName(names, t) == NameBytes(t.name) && Sendable(t) && |rt| < CAPACITY
    ensures Arrived(names, t, wt, rt, rt + [t], next, t)
  {
    AcceptedNew(names, wt, t);
    NewVariable(names, t, wt, rt, next, t);
  }

  /** The tables stay in lockstep when the sender adds t and the receiver u. */
  lemma FreshVariable(names: Names, t: Term, wt: seq<Term>, rest: Bytes, rt: seq<Term>, next: nat, u: Term)
    requires Coming(names, t, wt, rest, rt, next) && (t.Var? || t.ObVar?) && t !in wt && u == (if t.Var? then Var(next) else ObVar(next))
    ensures Arrived(names, t, wt, rt, rt + [u], next + 1, u) && |rt| < CAPACITY
    ensures Shared(t) && NameOk(names, t) && (names(t).NoName? ==> NotName(rest))
  {
    AcceptedNew(names, wt, t);
    NewVariable(names, t, wt, rt, next, u);
  }

  lemma NewVariable(names: Names, t: Term, wt: seq<Term>, rt: seq<Term>, next: nat, u: Term)
    requires Shared(t) && NameOk(names, t) && t !in wt && Lockstep(wt, rt, next)
    requires u == (match t case Var(_) => Var(next) case ObVar(_) => ObVar(next) case Atom(_) => t)
    ensures Arrived(names, t, wt, rt, rt + [u], next + 1, u)
  {
  }

  /** The first byte, and what comes after it. */
  lemma First(names: Names, t: Term, wt: seq<Term>, rest: Bytes, rt: seq<Term>, next: nat)
    requires Coming(names, t, wt, rest, rt, next)
    ensures var b := Enc(names, t, wt).bytes;
            && b != [] && Starts(t, t in wt, b[0]) && b[0] != NAME
            && (b + rest)[0] == b[0] && (b + rest)[1..] == b[1..] + rest
            && (t.Int? && Fits32(t.n) ==> b[1..] == Number(t.n))
  {
    hide Lockstep, Enc, Starts, Sendable;
    TableGrows(names, t, wt);
    FirstByte(names, t, wt);
    var b := Enc(names, t, wt).bytes;
    assert (b + rest)[1..] == b[1..] + rest;
    if t.Int? && Fits32(t.n) { IntBytes(names, t, wt); }
  }

  lemma IntBytes(names: Names, t: Term, wt: seq<Term>)
    requires t.Int? && Fits32(t.n) && Sendable(t)
    ensures Enc(names, t, wt).bytes != [] && Enc(names, t, wt).bytes[1..] == Number(t.n)
  {
    assert ([INTEGER] + Number(t.n))[1..] == Number(t.n);
  }

  lemma NewBytes(names: Names, t: Term, wt: seq<Term>, rest: Bytes)
    requires Sendable(t) && Shared(t) && t !in wt
    ensures Enc(names, t, wt).bytes != [] && Enc(names, t, wt).bytes[1..] + rest == NewName(names, t) + rest
  {
    assert ([NewCode(t)] + NewName(names, t))[1..] == NewName(names, t);
  }

  lemma RefBytes(names: Names, t: Term, wt: seq<Term>, rest: Bytes)
    requires Sendable(t) && Shared(t) && t in wt && |wt| <= CAPACITY
    ensures var b, p := Enc(names, t, wt).bytes, Place(wt, t);
            && b != [] && Enc(names, t, wt).table == wt
            && if p >= 256 then b[0] == REF_OFFSET && b[1..] + rest == [p / 256, RefCode(t), p % 256] + rest
               else b[0] == RefCode(t) && b[1..] + rest == [p] + rest
  {
  }

  lemma NumberThen(n: int, rest: Bytes)
    ensures |Number(n) + rest| >= 4 && (Number(n) + rest)[..4] == Number(n) && (Number(n) + rest)[4..] == rest
  {
  }

  // ------------------------------------------------------------------
  // Several terms
  // ------------------------------------------------------------------

  lemma MidwayStart(names: Names, ts: seq<Term>, wt: seq<Term>, rest: Bytes, rt: seq<Term>, next: nat)
    requires Sendables(ts) && (AllEndBare(names, ts, wt) ==> NotName(rest)) && Lockstep(wt, rt, next) && Accepted(names, wt, EncAll(names, ts, wt).table)
    ensures Midway(names, ts, 0, wt, wt, rest, rt, rt, next, [], EncAll(names, ts, wt).bytes + rest)
  {
    assert ts[0..] == ts && ts[..0] == [];
  }

  lemma MidwayNext(names: Names, ts: seq<Term>, i: nat, wt0: seq<Term>, wt: seq<Term>, rest: Bytes, rt0: seq<Term>, rt: seq<Term>,
                   next: nat, us: seq<Term>, input: Bytes) returns (rest1: Bytes)
    requires Midway(names, ts, i, wt0, wt, rest, rt0, rt, next, us, input) && i < |ts|
    ensures Coming(names, ts[i], wt, rest1, rt, next) && input == Enc(names, ts[i], wt).bytes + rest1
    ensures |rest1| < |input| && Sendable(ts[i])
    ensures rest1 == EncAll(names, ts[i + 1..], Enc(names, ts[i], wt).table).bytes + rest
  {
    hide Lockstep, Knowns, Rens, Enc, EncAll, Sendable, Sendables, NotName, EndsBare, AllEndBare, Accepted, Grown;
    NextEncoded(names, ts, i, wt);
    var a := Enc(names, ts[i], wt);
    EncGrown(names, ts[i], wt);
    GrownPrefix(wt, a.table);
    AcceptedMoreAll(names, wt, ts[i + 1..], a.table);
    NextLook(names, ts, i, wt, rest);
    FirstByte(names, ts[i], wt);
    rest1 := EncAll(names, ts[i + 1..], a.table).bytes + rest;
    assert a.bytes + EncAll(names, ts[i + 1..], a.table).bytes + rest == a.bytes + rest1;
  }

  /** What follows the next of several terms. */
  lemma NextLook(names: Names, ts: seq<Term>, i: nat, wt: seq<Term>, rest: Bytes)
    requires i < |ts| && (AllEndBare(names, ts[i..], wt) ==> NotName(rest)) && |Enc(names, ts[i], wt).table| <= CAPACITY
    ensures var a := Enc(names, ts[i], wt);
            && (EndsBare(names, ts[i], wt) ==> NotName(EncAll(names, ts[i + 1..], a.table).bytes + rest))
            && (AllEndBare(names, ts[i + 1..], a.table) ==> NotName(rest))
  {
    hide EndsBare, Enc;
    var a := Enc(names, ts[i], wt);
    assert ts[i..][1..] == ts[i + 1..];
    if i + 1 == |ts| {
      assert [] + rest == rest;
    } else {
      FirstByte(names, ts[i + 1], a.table);
      assert EncAll(names, ts[i + 1..], a.table).bytes[0] == Enc(names, ts[i + 1], a.table).bytes[0];
    }
  }

  lemma MidwayStep(names: Names, ts: seq<Term>, i: nat, wt0: seq<Term>, wt: seq<Term>, rest: Bytes, rt0: seq<Term>, rt: seq<Term>,
                   next: nat, us: seq<Term>, input: Bytes, rest1: Bytes, rt': seq<Term>, next': nat, u: Term) returns (wt': seq<Term>)
    requires Midway(names, ts, i, wt0, wt, rest, rt0, rt, next, us, input) && i < |ts|
    requires Sendable(ts[i]) && Arrived(names, ts[i], wt, rt, rt', next', u)
    requires rest1 == EncAll(names, ts[i + 1..], Enc(names, ts[i], wt).table).bytes + rest
    ensures Midway(names, ts, i + 1, wt0, wt', rest, rt0, rt', next', us + [u], rest1) && u == Ren(ts[i], wt', rt')
  {
    hide Lockstep, Enc, Sendable, Ren, Accepted, Grown, EndsBare, AllEndBare, NotName;
    NextEncoded(names, ts, i, wt);
    wt' := Enc(names, ts[i], wt).table;
    EncGrown(names, ts[i], wt);
    GrownPrefix(wt, wt');
    AcceptedMoreAll(names, wt, ts[i + 1..], wt');
    NextLook(names, ts, i, wt, rest);
    SameLength(wt, rt, next);
    KnownsMore(ts[..i], wt, wt');
    RensMore(ts[..i], wt, rt, wt', rt');
    assert ts[..i + 1] == ts[..i] + [ts[i]];
    OneMore(ts[..i], ts[i], wt', rt');
  }

  lemma SameLength(wt: seq<Term>, rt: seq<Term>, next: nat)
    requires Lockstep(wt, rt, next)
    ensures |wt| == |rt|
  {
  }

  lemma {:induction false} OneMore(ts: seq<Term>, t: Term, wt: seq<Term>, rt: seq<Term>)
    requires Knowns(ts, wt) && Known(t, wt)
    ensures Knowns(ts + [t], wt) && Rens(ts + [t], wt, rt) == Rens(ts, wt, rt) + [Ren(t, wt, rt)]
  {
    if ts == [] {
      assert ts + [t] == [t] && [t][1..] == [];
    } else {
      assert (ts + [t])[1..] == ts[1..] + [t];
      OneMore(ts[1..], t, wt, rt);
    }
  }

  lemma MidwayEnd(names: Names, ts: seq<Term>, wt0: seq<Term>, wt: seq<Term>, rest: Bytes, rt0: seq<Term>, rt: seq<Term>,
                  next: nat, us: seq<Term>, input: Bytes)
    requires Midway(names, ts, |ts|, wt0, wt, rest, rt0, rt, next, us, input)
    ensures wt == EncAll(names, ts, wt0).table && input == rest && us == Rens(ts, wt, rt) && Lockstep(wt, rt, next) && rt0 <= rt
  {
    hide Lockstep;
    assert ts[|ts|..] == [] && ts[..|ts|] == ts;
    assert [] + rest == rest;
  }

  lemma ConsParts(names: Names, t: Term, wt: seq<Term>, rest: Bytes, rt: seq<Term>, next: nat)
    requires Coming(names, t, wt, rest, rt, next) && t.Cons? && Enc(names, t, wt).bytes != []
    ensures Midway(names, [t.head, t.tail], 0, wt, wt, rest, rt, rt, next, [], Enc(names, t, wt).bytes[1..] + rest)
  {
    hide Lockstep, Midway;
    var ts := [t.head, t.tail];
    TwoEncoded(names, t.head, t.tail, wt);
    MidwayStart(names, ts, wt, rest, rt, next);
    assert ([LIST] + EncAll(names, ts, wt).bytes)[1..] == EncAll(names, ts, wt).bytes;
  }

  lemma TwoEncoded(names: Names, a: Term, b: Term, wt: seq<Term>)
    requires Sendable(a) && Sendable(b)
    ensures Sendables([a, b])
    ensures var x := Enc(names, a, wt);
            var y := Enc(names, b, x.table);
            && EncAll(names, [a, b], wt) == Coded(x.bytes + y.bytes, y.table)
            && AllEndBare(names, [a, b], wt) == EndsBare(names, b, x.table)
  {
    hide Enc, Sendable, EndsBare;
    assert [a, b][1..] == [b] && [b][1..] == [];
    assert Sendables([]) && Sendables([b]);
    var x := Enc(names, a, wt);
    var y := Enc(names, b, x.table);
    assert y.bytes + [] == y.bytes;
    assert EncAll(names, [b], x.table) == y;
  }

  lemma ConsWhole(names: Names, t: Term, wt: seq<Term>, rest: Bytes, rt: seq<Term>, next0: nat, wt': seq<Term>, rt': seq<Term>,
                  next: nat, us: seq<Term>, input: Bytes)
    requires t.Cons? && Coming(names, t, wt, rest, rt, next0) && |us| == 2
    requires Midway(names, [t.head, t.tail], 2, wt, wt', rest, rt, rt', next, us, input)
    ensures input == rest && Arrived(names, t, wt, rt, rt', next, Cons(us[0], us[1]))
  {
    var ts := [t.head, t.tail];
    MidwayEnd(names, ts, wt, wt', rest, rt, rt', next, us, input);
    hide Lockstep, Midway;
    TwoEncoded(names, t.head, t.tail, wt);
    RensTwo(t.head, t.tail, wt', rt');
  }

  lemma RensTwo(a: Term, b: Term, wt: seq<Term>, rt: seq<Term>)
    ensures Rens([a, b], wt, rt) == [Ren(a, wt, rt), Ren(b, wt, rt)]
  {
    assert [a, b][1..] == [b] && [b][1..] == [];
    assert Rens([b], wt, rt) == [Ren(b, wt, rt)];
  }

  lemma ThreeEncoded(names: Names, a: Term, b: Term, c: Term, wt: seq<Term>)
    requires Sendable(a) && Sendable(b) && Sendable(c)
    ensures Sendables([a, b, c])
    ensures var x := Enc(names, a, wt);
            var y := Enc(names, b, x.table);
            var z := Enc(names, c, y.table);
            && EncAll(names, [a, b, c], wt) == Coded(x.bytes + (y.bytes + z.bytes), z.table)
            && AllEndBare(names, [a, b, c], wt) == EndsBare(names, c, y.table)
  {
    hide Enc, Sendable, EndsBare;
    assert [a, b, c][1..] == [b, c];
    TwoEncoded(names, b, c, Enc(names, a, wt).table);
  }

  lemma QuantParts(names: Names, t: Term, wt: seq<Term>, rest: Bytes, rt: seq<Term>, next: nat)
    requires Coming(names, t, wt, rest, rt, next) && t.Quant? && Enc(names, t, wt).bytes != []
    ensures Midway(names, [t.q, t.bound, t.body], 0, wt, wt, rest, rt, rt, next, [], Enc(names, t, wt).bytes[1..] + rest)
  {
    hide Lockstep, Midway;
    var ts := [t.q, t.bound, t.body];
    ThreeEncoded(names, t.q, t.bound, t.body, wt);
    MidwayStart(names, ts, wt, rest, rt, next);
    assert ([QUANTIFIER] + EncAll(names, ts, wt).bytes)[1..] == EncAll(names, ts, wt).bytes;
  }

  lemma QuantWhole(names: Names, t: Term, wt: seq<Term>, rest: Bytes, rt: seq<Term>, next0: nat, wt': seq<Term>, rt': seq<Term>,
                   next: nat, us: seq<Term>, input: Bytes)
    requires t.Quant? && Coming(names, t, wt, rest, rt, next0) && |us| == 3
    requires Midway(names, [t.q, t.bound, t.body], 3, wt, wt', rest, rt, rt', next, us, input)
    ensures input == rest && Arrived(names, t, wt, rt, rt', next, Quant(us[0], us[1], us[2]))
  {
    var ts := [t.q, t.bound, t.body];
    MidwayEnd(names, ts, wt, wt', rest, rt, rt', next, us, input);
    hide Lockstep, Midway;
    ThreeEncoded(names, t.q, t.bound, t.body, wt);
    assert ts[1..] == [t.bound, t.body];
    RensTwo(t.bound, t.body, wt', rt');
  }

  // ------------------------------------------------------------------
  // Structures
  // ------------------------------------------------------------------

  ghost function FunctorOf(t: Term): (f: Term)
    requires t.Struct? ==> t.args != []
    ensures t.Struct? ==> f == t.args[0]
    ensures !t.Struct? ==> f == Atom(INT64)
  {
    if t.Struct? then t.args[0] else Atom(INT64)
  }

  /** What follows the functor: the other arguments, or the halves of an integer. */
  ghost function AfterFunctor(names: Names, t: Term, wt: seq<Term>): Bytes
    requires Sendable(t) && (t.Struct? || t.Int?) && (t.Struct? ==> t.args != [] && Sendable(t.args[0]) && Sendables(t.args[1..]))
  {
    if t.Struct? then EncAll(names, t.args[1..], Enc(names, t.args[0], wt).table).bytes
    else if t.Int? then [INTEGER] + Number(t.n / W32) + ([INTEGER] + Number(t.n % W32))
    else []
  }

  lemma StructParts(names: Names, t: Term)
    requires t.Struct? && Sendable(t)
    ensures t.args != [] && Sendable(t.args[0]) && Sendables(t.args[1..])
    ensures NumberOf(Number(|t.args| - 1)) == |t.args| - 1
    ensures |t.args| == 3 && t.args[0] == Atom(INT64) <==> IsPair(t.args)
    ensures InHalves(t) <==> IsPair(t.args)
  {
    hide Number, NumberOf;
    NumberRead(|t.args| - 1);
  }

  lemma StructureComing(names: Names, t: Term, wt: seq<Term>, rest: Bytes, rt: seq<Term>, next: nat) returns (rest1: Bytes)
    requires Coming(names, t, wt, rest, rt, next) && (t.Struct? || (t.Int? && !Fits32(t.n))) && Enc(names, t, wt).bytes != []
    ensures t.Struct? ==> t.args != [] && Sendable(t.args[0]) && Sendables(t.args[1..])
    ensures Coming(names, FunctorOf(t), wt, rest1, rt, next) && Sendable(t) && Sendable(FunctorOf(t)) && rest1 == AfterFunctor(names, t, wt) + rest
    ensures var n := if t.Struct? then |t.args| - 1 else 2;
            Enc(names, t, wt).bytes[1..] + rest == Number(n) + (Enc(names, FunctorOf(t), wt).bytes + rest1) && NumberOf(Number(n)) == n
  {
    hide Lockstep;
    if t.Struct? {
      StructParts(names, t);
      rest1 := StructComing(names, t, wt, rest, rt, next);
    } else {
      rest1 := IntComing(names, t, wt, rest, rt, next);
    }
  }

  lemma IntComing(names: Names, t: Term, wt: seq<Term>, rest: Bytes, rt: seq<Term>, next: nat) returns (rest1: Bytes)
    requires Coming(names, t, wt, rest, rt, next) && t.Int? && !Fits32(t.n) && Enc(names, t, wt).bytes != []
    ensures Coming(names, Atom(INT64), wt, rest1, rt, next) && Sendable(t) && Sendable(Atom(INT64))
    ensures rest1 == AfterFunctor(names, t, wt) + rest && NumberOf(Number(2)) == 2
    ensures Enc(names, t, wt).bytes[1..] + rest == Number(2) + (Enc(names, Atom(INT64), wt).bytes + rest1)
  {
    hide Lockstep, Number, NumberOf;
    NumberRead(2);
    rest1 := AfterFunctor(names, t, wt) + rest;
    IntSplit([STRUCTURE], Number(2), EncShared(names, Atom(INT64), wt).bytes, AfterFunctor(names, t, wt), rest);
  }

  lemma IntSplit(a: Bytes, b: Bytes, c: Bytes, d: Bytes, e: Bytes)
    requires |a| == 1
    ensures (a + b + c + d)[1..] + e == b + (c + (d + e))
  {
  }

  lemma StructComing(names: Names, t: Term, wt: seq<Term>, rest: Bytes, rt: seq<Term>, next: nat) returns (rest1: Bytes)
    requires Coming(names, t, wt, rest, rt, next) && t.Struct? && Enc(names, t, wt).bytes != []
    requires t.args != [] && Sendable(t.args[0]) && Sendables(t.args[1..])
    ensures Coming(names, t.args[0], wt, rest1, rt, next) && rest1 == AfterFunctor(names, t, wt) + rest
    ensures Enc(names, t, wt).bytes[1..] + rest == Number(|t.args| - 1) + (Enc(names, t.args[0], wt).bytes + rest1)
    ensures Midway(names, t.args, 0, wt, wt, rest, rt, rt, next, [], Enc(names, t.args[0], wt).bytes + rest1)
  {
    hide Lockstep, Midway, Accepted, Number;
    var a := EncAll(names, t.args, wt);
    assert Enc(names, t, wt) == Coded([STRUCTURE] + (Number(|t.args| - 1) + a.bytes), a.table);
    assert Sendables(t.args);
    hide Enc, EncAll, Sendable, Sendables;
    MidwayStart(names, t.args, wt, rest, rt, next);
    rest1 := MidwayNext(names, t.args, 0, wt, wt, rest, rt, rt, next, [], a.bytes + rest);
    assert t.args[1..] == t.args[0 + 1..];
    StructBytes(Number(|t.args| - 1), a.bytes, rest);
  }

  lemma StructBytes(a: Bytes, b: Bytes, rest: Bytes)
    ensures ([STRUCTURE] + (a + b))[1..] + rest == a + (b + rest)
  {
  }

  /** The functor of a structure has arrived. */
  lemma FunctorArrived(names: Names, t: Term, wt: seq<Term>, rest: Bytes, rt: seq<Term>, next0: nat, rest1: Bytes,
                       rt': seq<Term>, next: nat, f: Term) returns (wt': seq<Term>)
    requires Coming(names, t, wt, rest, rt, next0) && t.Struct? && t.args != [] && Sendable(t.args[0]) && Sendables(t.args[1..])
    requires Arrived(names, t.args[0], wt, rt, rt', next, f) && rest1 == AfterFunctor(names, t, wt) + rest
    ensures Midway(names, t.args, 1, wt, wt', rest, rt, rt', next, [f], rest1)
    ensures f == Atom(INT64) <==> t.args[0] == Atom(INT64)
  {
    MidwayStart(names, t.args, wt, rest, rt, next0);
    Int64Arrived(names, t.args[0], wt, rt, rt', next, f);
    hide Lockstep, Midway, Ren;
    wt' := MidwayStep(names, t.args, 0, wt, wt, rest, rt, rt, next0, [], EncAll(names, t.args, wt).bytes + rest, rest1, rt', next, f);
    assert [] + [f] == [f];
  }

  /** Only the atom $int64 arrives as $int64. */
  lemma Int64Arrived(names: Names, t: Term, wt: seq<Term>, rt: seq<Term>, rt': seq<Term>, next: nat, u: Term)
    requires Sendable(t) && Arrived(names, t, wt, rt, rt', next, u)
    ensures u == Atom(INT64) <==> t == Atom(INT64)
  {
    EncGrown(names, t, wt);
    RenInt64(t, Enc(names, t, wt).table, rt', next);
  }

  lemma StructWhole(names: Names, t: Term, wt: seq<Term>, rest: Bytes, rt: seq<Term>, next0: nat, wt': seq<Term>, rt': seq<Term>,
                    next: nat, us: seq<Term>, input: Bytes)
    requires t.Struct? && !IsPair(t.args) && Coming(names, t, wt, rest, rt, next0)
    requires Midway(names, t.args, |t.args|, wt, wt', rest, rt, rt', next, us, input)
    ensures input == rest && Arrived(names, t, wt, rt, rt', next, Struct(us))
  {
    MidwayEnd(names, t.args, wt, wt', rest, rt, rt', next, us, input);
    hide Lockstep, Midway;
  }

  lemma IntFunctor(names: Names, t: Term, wt: seq<Term>, rt: seq<Term>, rt': seq<Term>, next: nat, f: Term)
    requires t.Int? && !Fits32(t.n) && Sendable(Atom(INT64)) && Arrived(names, Atom(INT64), wt, rt, rt', next, f)
    ensures f == Atom(INT64) && InHalves(t)
  {
    Int64Arrived(names, Atom(INT64), wt, rt, rt', next, f);
  }

  lemma PairFunctor(t: Term)
    requires InHalves(t)
    ensures Sendable(Atom(INT64)) && FunctorOf(t) == Atom(INT64)
  {
  }

  /** Two halves are coming: those of an integer, or two arguments that are taken for halves. */
  predicate InHalves(t: Term) {
    (t.Int? && !Fits32(t.n)) || (t.Struct? && IsPair(t.args))
  }

  function HighOf(t: Term): int
    requires InHalves(t)
  {
    if t.Int? then t.n / W32 else t.args[1].n
  }

  function LowOf(t: Term): int
    requires InHalves(t)
  {
    if t.Int? then t.n % W32 else t.args[2].n
  }

  function Halves(hi: int, lo: int): Bytes {
    [INTEGER] + Number(hi) + ([INTEGER] + Number(lo))
  }

  lemma HalvesComing(names: Names, t: Term, wt: seq<Term>, rest: Bytes)
    requires InHalves(t) && Sendable(t)
    requires t.Struct? ==> t.args != [] && Sendable(t.args[0]) && Sendables(t.args[1..])
    ensures AfterFunctor(names, t, wt) + rest == Halves(HighOf(t), LowOf(t)) + rest
  {
    if t.Struct? {
      hide Number;
      PairBytes(names, t.args, Enc(names, t.args[0], wt).table);
    }
  }

  lemma PairBytes(names: Names, args: seq<Term>, table: seq<Term>)
    requires IsPair(args)
    ensures EncAll(names, args[1..], table) == Coded(Halves(args[1].n, args[2].n), table)
  {
    hide Number;
    assert args[1..][1..] == [args[2]];
    EncOne(names, args[2], table);
  }

  /** What is made of the halves is what is received for the term. */
  lemma HalvesWhole(names: Names, t: Term, wt: seq<Term>, rt: seq<Term>, rt': seq<Term>, next: nat, f: Term)
    requires InHalves(t) && Sendable(t) && Sendable(Atom(INT64)) && Arrived(names, Atom(INT64), wt, rt, rt', next, f)
    ensures Arrived(names, t, wt, rt, rt', next, Int(Wrap64(HighOf(t) % W32 * W32 + LowOf(t) % W32)))
  {
    hide Lockstep, Number;
    if t.Int? {
      TwiceLow(t.n);
    } else {
      assert t == Struct([Atom(INT64), Int(t.args[1].n), Int(t.args[2].n)]);
      EncPair(names, t.args[1].n, t.args[2].n, wt);
      PairJoined(t.args[1].n, t.args[2].n);
    }
  }

  lemma PairJoined(hi: int, lo: int)
    requires Fits32(hi) && Fits32(lo)
    ensures Wrap64(hi % W32 * W32 + lo % W32) == Joined(hi, lo)
  {
  }

  lemma TwiceLow(n: int)
    ensures n % W32 % W32 == n % W32
  {
  }

  lemma HalvesThen(n: int, m: int, rest: Bytes)
    ensures var hi, lo, all := Number(n), Number(m), Halves(n, m) + rest;
            && |all| > 0 && |all[1..]| >= 4 && all[1..][..4] == hi && |all[1..][4..]| > 0
            && |all[1..][4..][1..]| >= 4 && all[1..][4..][1..][..4] == lo && all[1..][4..][1..][4..] == rest
  {
    var hi, lo := Number(n), Number(m);
    var all := [INTEGER] + hi + ([INTEGER] + lo) + rest;
    assert all[1..] == hi + ([INTEGER] + lo + rest);
    assert all[1..][4..] == [INTEGER] + lo + rest;
    assert all[1..][4..][1..] == lo + rest;
  }

  // ------------------------------------------------------------------
  // Substitutions
  // ------------------------------------------------------------------

  ghost predicate BlocksComing(names: Names, bs: seq<Block>, wt: seq<Term>, rt: seq<Term>, next: nat) {
    BlocksSendable(bs) && Lockstep(wt, rt, next) && Accepted(names, wt, EncBlocks(names, bs, wt).table)
  }

  ghost predicate BlocksArrived(names: Names, bs: seq<Block>, wt: seq<Term>, rt: seq<Term>, rt': seq<Term>, next: nat, sub: seq<Block>)
    requires BlocksSendable(bs)
  {
    var wt' := EncBlocks(names, bs, wt).table;
    Lockstep(wt', rt', next) && rt <= rt' && sub == RenBlocks(bs, wt', rt')
  }

  /** The blocks from k on have been received, as sub; todo are the bytes to come. */
  ghost predicate SubMid(names: Names, bs: seq<Block>, k: nat, wt0: seq<Term>, wt: seq<Term>, rest: Bytes,
                         rt0: seq<Term>, rt: seq<Term>, next: nat, sub: seq<Block>, todo: Bytes)
  {
    && k <= |bs| && AllSendable(bs) && BlocksSendable(bs) && AllSendable(bs[..k])
    && Lockstep(wt, rt, next) && rt0 <= rt
    && BlocksKnown(bs[k..], wt) && sub == RenBlocks(bs[k..], wt, rt)
    && EncFront(names, bs[..k], wt).table == EncBlocks(names, bs, wt0).table && Accepted(names, wt, EncBlocks(names, bs, wt0).table)
    && todo == EncFront(names, bs[..k], wt).bytes + ([SUBSTITUTION_END] + rest)
  }

  lemma SubStart(names: Names, bs: seq<Block>, wt: seq<Term>, rest: Bytes, rt: seq<Term>, next: nat)
    requires BlocksComing(names, bs, wt, rt, next)
    ensures SubMid(names, bs, |bs|, wt, wt, rest, rt, rt, next, [], EncBlocks(names, bs, wt).bytes + ([SUBSTITUTION_END] + rest))
  {
    hide Lockstep;
    EachSendable(bs);
    FrontIsBlocks(names, bs, wt);
    assert bs[..|bs|] == bs && bs[|bs|..] == [];
  }

  /** What the next byte is. */
  lemma SubLook(names: Names, bs: seq<Block>, k: nat, wt0: seq<Term>, wt: seq<Term>, rest: Bytes,
                rt0: seq<Term>, rt: seq<Term>, next: nat, sub: seq<Block>, todo: Bytes)
    requires SubMid(names, bs, k, wt0, wt, rest, rt0, rt, next, sub, todo)
    ensures |todo| > 0 && todo[0] == (if k > 0 then BLOCK_TAG else SUBSTITUTION_END) && todo[0] != NAME
    ensures k > 0 <==> todo[0] != SUBSTITUTION_END
  {
    hide Lockstep;
    if k == 0 { assert [] + ([SUBSTITUTION_END] + rest) == [SUBSTITUTION_END] + rest; }
  }

  lemma BlockComing(names: Names, bs: seq<Block>, k: nat, wt0: seq<Term>, wt: seq<Term>, rest: Bytes,
                    rt0: seq<Term>, rt: seq<Term>, next: nat, sub: seq<Block>, todo: Bytes) returns (rest1: Bytes)
    requires SubMid(names, bs, k, wt0, wt, rest, rt0, rt, next, sub, todo) && k > 0
    ensures k <= |bs| && BlockSendable(bs[k - 1]) && Sendables(bs[k - 1].pairs) && Lockstep(wt, rt, next) && NotName(rest1)
    ensures todo != [] && todo[1..] == Number(|bs[k - 1].pairs| / 2) + (EncAll(names, bs[k - 1].pairs, wt).bytes + rest1)
    ensures Accepted(names, wt, EncAll(names, bs[k - 1].pairs, wt).table) && |rest1| < |todo|
    ensures AllSendable(bs[..k - 1])
    ensures rest1 == EncFront(names, bs[..k - 1], EncAll(names, bs[k - 1].pairs, wt).table).bytes + ([SUBSTITUTION_END] + rest)
    ensures NumberOf(Number(|bs[k - 1].pairs| / 2)) == |bs[k - 1].pairs| / 2 && |bs[k - 1].pairs| == 2 * (|bs[k - 1].pairs| / 2)
  {
    hide Lockstep, EncAll, EncBlocks, Number, NumberOf, BlocksSendable, Sendables, RenBlocks, BlocksKnown, Accepted;
    FrontSplit(names, bs, k, wt);
    var a := EncAll(names, bs[k - 1].pairs, wt);
    var b := EncFront(names, bs[..k - 1], a.table);
    rest1 := b.bytes + ([SUBSTITUTION_END] + rest);
    FrontLook(names, bs[..k - 1], a.table, rest);
    FrontAccepted(names, bs[k - 1].pairs, bs[..k - 1], wt);
    NumberRead(|bs[k - 1].pairs| / 2);
    FiveInRow([BLOCK_TAG], Number(|bs[k - 1].pairs| / 2), a.bytes, b.bytes, [SUBSTITUTION_END] + rest);
  }

  lemma FiveInRow(a: Bytes, b: Bytes, c: Bytes, d: Bytes, e: Bytes)
    ensures a + (b + (c + d)) + e == a + (b + (c + (d + e)))
  {
  }

  lemma FrontSplit(names: Names, bs: seq<Block>, k: nat, wt: seq<Term>)
    requires 0 < k <= |bs| && AllSendable(bs[..k])
    ensures BlockSendable(bs[k - 1]) && AllSendable(bs[..k - 1])
    ensures var a := EncAll(names, bs[k - 1].pairs, wt);
            var b := EncFront(names, bs[..k - 1], a.table);
            EncFront(names, bs[..k], wt) == Coded([BLOCK_TAG] + (Number(|bs[k - 1].pairs| / 2) + (a.bytes + b.bytes)), b.table)
  {
    assert bs[..k][k - 1] == bs[k - 1] && bs[..k][..k - 1] == bs[..k - 1];
  }

  lemma FrontLook(names: Names, bs: seq<Block>, wt: seq<Term>, rest: Bytes)
    requires AllSendable(bs)
    ensures NotName(EncFront(names, bs, wt).bytes + ([SUBSTITUTION_END] + rest))
  {
  }

  lemma {:induction false} FrontGrows(names: Names, bs: seq<Block>, wt: seq<Term>)
    ensures Grown(wt, EncFront(names, bs, wt).table)
    decreases |bs|
  {
    hide Grown, EncAll;
    GrownRefl(wt);
    if bs != [] {
      var ts := bs[|bs| - 1].pairs;
      var a := EncAll(names, ts, wt);
      EncAllGrown(names, ts, wt);
      FrontGrows(names, bs[..|bs| - 1], a.table);
      GrownTwice(wt, a.table, EncFront(names, bs[..|bs| - 1], a.table).table);
    }
  }

  lemma FrontAccepted(names: Names, ts: seq<Term>, bs: seq<Block>, wt: seq<Term>)
    ensures var a := EncAll(names, ts, wt).table;
            var b := EncFront(names, bs, a).table;
            Accepted(names, wt, b) <==> Accepted(names, wt, a) && Accepted(names, a, b)
  {
    hide EncAll, EncFront;
    var a := EncAll(names, ts, wt).table;
    EncAllGrown(names, ts, wt);
    FrontGrows(names, bs, a);
    AcceptedTwice(names, wt, a, EncFront(names, bs, a).table);
  }

  lemma BlockArrived(names: Names, bs: seq<Block>, k: nat, wt0: seq<Term>, wt: seq<Term>, rest: Bytes, rt0: seq<Term>, rt: seq<Term>,
                     next: nat, sub: seq<Block>, todo: Bytes, rest1: Bytes, wt': seq<Term>, rt': seq<Term>, next': nat, us: seq<Term>)
    requires SubMid(names, bs, k, wt0, wt, rest, rt0, rt, next, sub, todo) && k > 0 && Sendables(bs[k - 1].pairs)
    requires wt' == EncAll(names, bs[k - 1].pairs, wt).table && us == Rens(bs[k - 1].pairs, wt', rt')
    requires Lockstep(wt', rt', next') && rt <= rt' && AllSendable(bs[..k - 1])
    requires rest1 == EncFront(names, bs[..k - 1], wt').bytes + ([SUBSTITUTION_END] + rest)
    ensures SubMid(names, bs, k - 1, wt0, wt', rest, rt0, rt', next', [Block(us)] + sub, rest1)
  {
    hide Lockstep, EncAll, Sendables, Rens, Accepted;
    FrontAccepted(names, bs[k - 1].pairs, bs[..k - 1], wt);
    EncAllGrown(names, bs[k - 1].pairs, wt);
    GrownPrefix(wt, wt');
    SameLength(wt, rt, next);
    BlocksKnownMore(bs[k..], wt, wt');
    RenBlocksMore(bs[k..], wt, rt, wt', rt');
    assert bs[k - 1..][1..] == bs[k..] && bs[k - 1..][0] == bs[k - 1];
    assert bs[..k][k - 1] == bs[k - 1] && bs[..k][..k - 1] == bs[..k - 1];
  }

  lemma SubEnd(names: Names, bs: seq<Block>, k: nat, wt0: seq<Term>, wt: seq<Term>, rest: Bytes,
               rt0: seq<Term>, rt: seq<Term>, next: nat, sub: seq<Block>, todo: Bytes)
    requires SubMid(names, bs, k, wt0, wt, rest, rt0, rt, next, sub, todo) && todo != [] && todo[0] == SUBSTITUTION_END
    ensures BlocksSendable(bs) && BlocksArrived(names, bs, wt0, rt0, rt, next, sub) && todo[1..] == rest
  {
    SubLook(names, bs, k, wt0, wt, rest, rt0, rt, next, sub, todo);
    hide Lockstep;
    assert bs[..0] == [] && bs[0..] == bs;
    assert [] + ([SUBSTITUTION_END] + rest) == [SUBSTITUTION_END] + rest;
  }

  lemma SubstComing(names: Names, t: Term, wt: seq<Term>, rest: Bytes, rt: seq<Term>, next: nat) returns (rest1: Bytes)
    requires Coming(names, t, wt, rest, rt, next) && t.Subst? && Enc(names, t, wt).bytes != []
    ensures BlocksSendable(t.blocks) && Sendable(t.t) && BlocksComing(names, t.blocks, wt, rt, next)
    ensures Enc(names, t, wt).bytes[1..] + rest == EncBlocks(names, t.blocks, wt).bytes + ([SUBSTITUTION_END] + rest1)
    ensures rest1 == Enc(names, t.t, EncBlocks(names, t.blocks, wt).table).bytes + rest
  {
    hide Lockstep, EncBlocks, BlocksSendable, NotName, Accepted;
    EncBlocksGrown(names, t.blocks, wt);
    var a := EncBlocks(names, t.blocks, wt);
    var b := Enc(names, t.t, a.table);
    AcceptedMore(names, wt, t.t, a.table);
    rest1 := b.bytes + rest;
    SubstBytes(a.bytes, b.bytes, rest);
  }

  lemma SubstBytes(a: Bytes, b: Bytes, rest: Bytes)
    ensures ([SUBSTITUTION] + (a + ([SUBSTITUTION_END] + b)))[1..] + rest == a + ([SUBSTITUTION_END] + (b + rest))
  {
  }

  lemma TermComing(names: Names, t: Term, wt: seq<Term>, rest: Bytes, rt: seq<Term>, next0: nat, rt1: seq<Term>, next: nat,
                   sub: seq<Block>, rest1: Bytes)
    requires Coming(names, t, wt, rest, rt, next0) && t.Subst? && BlocksSendable(t.blocks) && Sendable(t.t)
    requires BlocksArrived(names, t.blocks, wt, rt, rt1, next, sub)
    ensures Coming(names, t.t, EncBlocks(names, t.blocks, wt).table, rest, rt1, next)
  {
    hide Lockstep, Accepted;
    EncBlocksGrown(names, t.blocks, wt);
    AcceptedMore(names, wt, t.t, EncBlocks(names, t.blocks, wt).table);
  }

  lemma SubstWhole(names: Names, t: Term, wt: seq<Term>, rest: Bytes, rt: seq<Term>, next0: nat, rt1: seq<Term>, next1: nat,
                   sub: seq<Block>, rt': seq<Term>, next: nat, v: Term)
    requires Coming(names, t, wt, rest, rt, next0) && t.Subst? && BlocksSendable(t.blocks) && Sendable(t.t)
    requires BlocksArrived(names, t.blocks, wt, rt, rt1, next1, sub)
    requires Arrived(names, t.t, EncBlocks(names, t.blocks, wt).table, rt1, rt', next, v)
    ensures Arrived(names, t, wt, rt, rt', next, Subst(sub, v))
  {
    var wt1 := EncBlocks(names, t.blocks, wt).table;
    SameLength(wt1, rt1, next1);
    hide Lockstep;
    EncBlocksGrown(names, t.blocks, wt);
    EncGrown(names, t.t, wt1);
    GrownPrefix(wt1, Enc(names, t, wt).table);
    RenBlocksMore(t.blocks, wt1, rt1, Enc(names, t, wt).table, rt');
  }
}
