/** Trails: what unwinding them gives back, on values. */
module Trails {
  /** An entry of the second trail: a location and its old value (a tag or the word at an offset
      in an object), or a reference to a dynamic predicate. */
  datatype Entry = Saved(tag: bool, addr: nat, offset: nat, was: nat) | Ref(pred: nat)

  type Memory = seq<nat>
  type Bindings = seq<nat>  // variables, oldest first
  type Entries = seq<Entry>

  /** The tops of the heap and the trails when a choice point was made. */
  datatype HeapAndTrails = HeapAndTrails(heapTop: nat, bindingTop: nat, otherTop: nat)

  predicate Hits(e: Entry, a: nat) { e.Saved? && e.addr + e.offset == a }

  // ------------------------------------------------------------------
  // Unwinding
  // ------------------------------------------------------------------

  /** The content of cell a, now x, when the variables of bt are unbound: the cell after a
      variable refers to the variable. */
  function Unbound(bt: Bindings, a: nat, x: nat): nat {
    if a > 0 && a - 1 in bt then a - 1 else x
  }

  /** The content of cell a, now x, when the entries of ot are put back: the oldest counts. */
  function PutBack(ot: Entries, a: nat, x: nat): nat {
    if ot == [] then x else if Hits(ot[0], a) then ot[0].was else PutBack(ot[1..], a, x)
  }

  function Undone(bt: Bindings, ot: Entries, a: nat, x: nat): nat {
    PutBack(ot, a, Unbound(bt, a, x))
  }

  /** The predicates referred to. */
  function Refs(ot: Entries): multiset<nat> {
    if ot == [] then multiset{}
    else Refs(ot[..|ot| - 1]) + if ot[|ot| - 1].Ref? then multiset{ot[|ot| - 1].pred} else multiset{}
  }

  lemma {:induction false} PutBackConcat(a: Entries, b: Entries, c: nat, x: nat)
    ensures PutBack(a + b, c, x) == PutBack(a, c, PutBack(b, c, x))
  {
    if a == [] {
      assert a + b == b;
    } else {
      assert (a + b)[1..] == a[1..] + b;
      PutBackConcat(a[1..], b, c, x);
    }
  }

  /** One more entry, older than the others. */
  lemma PutBackFrom(ot: Entries, k: nat)
    requires k < |ot|
    ensures forall a, x :: PutBack(ot[k..], a, x) == if Hits(ot[k], a) then ot[k].was else PutBack(ot[k + 1..], a, x)
    ensures Refs(ot[..k + 1]) == Refs(ot[..k]) + if ot[k].Ref? then multiset{ot[k].pred} else multiset{}
  {
    assert ot[k..][1..] == ot[k + 1..] && ot[..k + 1][..k] == ot[..k];
  }

  lemma {:induction false} PutBackMiss(ot: Entries, a: nat, x: nat)
    requires forall e :: e in ot ==> !Hits(e, a)
    ensures PutBack(ot, a, x) == x
  {
    if ot != [] {
      assert ot[0] in ot && forall e :: e in ot[1..] ==> e in ot;
      PutBackMiss(ot[1..], a, x);
    }
  }

  lemma {:induction false} PutBackHit(ot: Entries, a: nat, x: nat, y: nat)
    requires exists e :: e in ot && Hits(e, a)
    ensures PutBack(ot, a, x) == PutBack(ot, a, y)
  {
    if !Hits(ot[0], a) {
      var e :| e in ot && Hits(e, a);
      assert e in ot[1..];
      PutBackHit(ot[1..], a, x, y);
    }
  }

  /** The two trails write different cells. */
  ghost predicate Apart(bt: Bindings, ot: Entries) {
    forall v, e :: v in bt && e in ot ==> !Hits(e, v + 1)
  }

  /** So it does not matter which trail is unwound first. */
  lemma UnwindInAnyOrder(bt: Bindings, ot: Entries, a: nat, x: nat)
    requires Apart(bt, ot)
    ensures Unbound(bt, a, PutBack(ot, a, x)) == PutBack(ot, a, Unbound(bt, a, x))
  {
    if a > 0 && a - 1 in bt {
      forall e | e in ot ensures !Hits(e, a) { assert !Hits(e, (a - 1) + 1); }
      PutBackMiss(ot, a, a - 1);
    }
  }

  // ------------------------------------------------------------------
  // What a choice point can get back
  // ------------------------------------------------------------------

  /** A cell that existed when the heap ended at h: on the heap, or outside it. */
  predicate Old(a: nat, h: nat, cap: nat) { a < h || a >= cap }

  /** Unwinding the trails gives the old cells the contents they have in snap. */
  ghost predicate Restores(m: Memory, bt: Bindings, ot: Entries, h: nat, cap: nat, snap: Memory) {
    |snap| == |m| && forall a :: 0 <= a < |m| && Old(a, h, cap) ==> Undone(bt, ot, a, m[a]) == snap[a]
  }

  ghost predicate SnapsOk(m: Memory, cap: nat, bt: Bindings, ot: Entries, cs: seq<HeapAndTrails>, snaps: seq<Memory>) {
    && |snaps| == |cs|
    && forall i :: 0 <= i < |cs| ==>
         && cs[i].bindingTop <= |bt| && cs[i].otherTop <= |ot|
         && Restores(m, bt[cs[i].bindingTop..], ot[cs[i].otherTop..], cs[i].heapTop, cap, snaps[i])
  }

  /** Choice points are nested. */
  ghost predicate ChoicesOk(cs: seq<HeapAndTrails>, top: nat, savedTop: nat, cap: nat) {
    && |cs| > 0 && savedTop <= top <= cap
    && (forall i :: 0 <= i < |cs| ==> cs[i].heapTop <= savedTop)
    && (forall i, j :: 0 <= i <= j < |cs| ==>
          cs[i].heapTop <= cs[j].heapTop && cs[i].bindingTop <= cs[j].bindingTop && cs[i].otherTop <= cs[j].otherTop)
  }

  /** The entries are of cells that exist while the heap ends at h: of reference cells of variables
      in the one trail, of other cells in the other. */
  ghost predicate EntriesOk(bt: Bindings, ot: Entries, refs: set<nat>, h: nat, cap: nat, n: nat) {
    && (forall v :: v in bt ==> v + 1 in refs && v + 1 < h)
    && (forall e :: e in ot && e.Saved? ==>
          && e.addr + e.offset !in refs && e.addr + e.offset < n && Old(e.addr + e.offset, h, cap)
          && (e.addr < cap ==> e.addr + e.offset < cap))
  }

  ghost predicate TrailsOk(bt: Bindings, ot: Entries, refs: set<nat>, cs: seq<HeapAndTrails>, top: nat, cap: nat, n: nat) {
    && EntriesOk(bt, ot, refs, top, cap, n)
    && forall i :: 0 <= i < |cs| ==>
         && cs[i].bindingTop <= |bt| && cs[i].otherTop <= |ot|
         && EntriesOk(bt[..cs[i].bindingTop], ot[..cs[i].otherTop], refs, cs[i].heapTop, cap, n)
  }

  lemma EntriesApart(bt: Bindings, ot: Entries, refs: set<nat>, h: nat, cap: nat, n: nat)
    requires EntriesOk(bt, ot, refs, h, cap, n)
    ensures Apart(bt, ot)
  {
  }

  // ------------------------------------------------------------------
  // Writing
  // ------------------------------------------------------------------

  /** A cell the choice points cannot get back may be written freely. */
  lemma WriteNew(m: Memory, bt: Bindings, ot: Entries, h: nat, cap: nat, snap: Memory, a: nat, x: nat)
    requires Restores(m, bt, ot, h, cap, snap) && a < |m| && !Old(a, h, cap)
    ensures Restores(m[a := x], bt, ot, h, cap, snap)
  {
    hide Undone;
  }

  /** So may a cell that is on the trail already. */
  lemma WriteTrailed(m: Memory, bt: Bindings, ot: Entries, h: nat, cap: nat, snap: Memory, a: nat, x: nat)
    requires Restores(m, bt, ot, h, cap, snap) && a < |m| && exists e :: e in ot && Hits(e, a)
    ensures Restores(m[a := x], bt, ot, h, cap, snap)
  {
    forall c | 0 <= c < |m| && Old(c, h, cap) ensures Undone(bt, ot, c, m[a := x][c]) == snap[c] {
      if c == a { PutBackHit(ot, a, Unbound(bt, a, m[a]), Unbound(bt, a, x)); }
    }
  }

  /** A binding that is trailed. */
  lemma WriteBinding(m: Memory, bt: Bindings, ot: Entries, h: nat, cap: nat, snap: Memory, v: nat, x: nat)
    requires Restores(m, bt, ot, h, cap, snap) && v + 1 < |m| && m[v + 1] == v
    ensures Restores(m[v + 1 := x], bt + [v], ot, h, cap, snap)
  {
    forall c | 0 <= c < |m| && Old(c, h, cap) ensures Undone(bt + [v], ot, c, m[v + 1 := x][c]) == snap[c] {
      assert Unbound(bt + [v], c, m[v + 1 := x][c]) == Unbound(bt, c, m[c]);
    }
  }

  /** An update that is trailed. */
  lemma WriteSaved(m: Memory, bt: Bindings, ot: Entries, h: nat, cap: nat, snap: Memory, tag: bool, addr: nat, offset: nat, x: nat)
    requires Restores(m, bt, ot, h, cap, snap) && addr + offset < |m| && forall v :: v in bt ==> v + 1 != addr + offset
    ensures Restores(m[addr + offset := x], bt, ot + [Saved(tag, addr, offset, m[addr + offset])], h, cap, snap)
  {
    var a, e := addr + offset, Saved(tag, addr, offset, m[addr + offset]);
    forall c | 0 <= c < |m| && Old(c, h, cap) ensures Undone(bt, ot + [e], c, m[a := x][c]) == snap[c] {
      PutBackConcat(ot, [e], c, Unbound(bt, c, m[a := x][c]));
      assert [e][1..] == [];
      assert Undone(bt, ot, c, m[c]) == snap[c];
      if c == a { assert Unbound(bt, a, m[a]) == m[a]; }
    }
  }

  // ------------------------------------------------------------------
  // Writing, for all choice points
  // ------------------------------------------------------------------

  lemma NewCell(m: Memory, cap: nat, bt: Bindings, ot: Entries, cs: seq<HeapAndTrails>, snaps: seq<Memory>, a: nat, x: nat)
    requires SnapsOk(m, cap, bt, ot, cs, snaps) && a < |m| && forall i :: 0 <= i < |cs| ==> !Old(a, cs[i].heapTop, cap)
    ensures SnapsOk(m[a := x], cap, bt, ot, cs, snaps)
  {
    hide Restores;
    forall i | 0 <= i < |cs|
      ensures Restores(m[a := x], bt[cs[i].bindingTop..], ot[cs[i].otherTop..], cs[i].heapTop, cap, snaps[i])
    {
      WriteNew(m, bt[cs[i].bindingTop..], ot[cs[i].otherTop..], cs[i].heapTop, cap, snaps[i], a, x);
    }
  }

  /** The cell is on the trail since the last choice point. */
  lemma TrailedCell(m: Memory, cap: nat, bt: Bindings, ot: Entries, cs: seq<HeapAndTrails>, snaps: seq<Memory>, k: nat, a: nat, x: nat)
    requires SnapsOk(m, cap, bt, ot, cs, snaps) && a < |m| && k < |ot| && Hits(ot[k], a)
    requires forall i :: 0 <= i < |cs| ==> cs[i].otherTop <= k
    ensures SnapsOk(m[a := x], cap, bt, ot, cs, snaps)
  {
    hide Restores;
    forall i | 0 <= i < |cs|
      ensures Restores(m[a := x], bt[cs[i].bindingTop..], ot[cs[i].otherTop..], cs[i].heapTop, cap, snaps[i])
    {
      assert ot[cs[i].otherTop..][k - cs[i].otherTop] == ot[k];
      WriteTrailed(m, bt[cs[i].bindingTop..], ot[cs[i].otherTop..], cs[i].heapTop, cap, snaps[i], a, x);
    }
  }

  lemma BoundCell(m: Memory, cap: nat, bt: Bindings, ot: Entries, cs: seq<HeapAndTrails>, snaps: seq<Memory>, v: nat, x: nat)
    requires SnapsOk(m, cap, bt, ot, cs, snaps) && v + 1 < |m| && m[v + 1] == v
    ensures SnapsOk(m[v + 1 := x], cap, bt + [v], ot, cs, snaps)
  {
    hide Restores;
    forall i | 0 <= i < |cs|
      ensures Restores(m[v + 1 := x], (bt + [v])[cs[i].bindingTop..], ot[cs[i].otherTop..], cs[i].heapTop, cap, snaps[i])
    {
      assert (bt + [v])[cs[i].bindingTop..] == bt[cs[i].bindingTop..] + [v];
      WriteBinding(m, bt[cs[i].bindingTop..], ot[cs[i].otherTop..], cs[i].heapTop, cap, snaps[i], v, x);
    }
  }

  lemma SavedCell(m: Memory, cap: nat, bt: Bindings, ot: Entries, cs: seq<HeapAndTrails>, snaps: seq<Memory>,
                  tag: bool, addr: nat, offset: nat, x: nat)
    requires SnapsOk(m, cap, bt, ot, cs, snaps) && addr + offset < |m| && forall v :: v in bt ==> v + 1 != addr + offset
    ensures SnapsOk(m[addr + offset := x], cap, bt, ot + [Saved(tag, addr, offset, m[addr + offset])], cs, snaps)
  {
    hide Restores;
    var e := Saved(tag, addr, offset, m[addr + offset]);
    forall i | 0 <= i < |cs|
      ensures Restores(m[addr + offset := x], bt[cs[i].bindingTop..], (ot + [e])[cs[i].otherTop..], cs[i].heapTop, cap, snaps[i])
    {
      assert (ot + [e])[cs[i].otherTop..] == ot[cs[i].otherTop..] + [e];
      assert forall v :: v in bt[cs[i].bindingTop..] ==> v in bt;
      WriteSaved(m, bt[cs[i].bindingTop..], ot[cs[i].otherTop..], cs[i].heapTop, cap, snaps[i], tag, addr, offset, x);
    }
  }

  lemma RefPushed(m: Memory, cap: nat, bt: Bindings, ot: Entries, cs: seq<HeapAndTrails>, snaps: seq<Memory>, p: nat)
    requires SnapsOk(m, cap, bt, ot, cs, snaps)
    ensures SnapsOk(m, cap, bt, ot + [Ref(p)], cs, snaps)
  {
    forall i | 0 <= i < |cs|
      ensures Restores(m, bt[cs[i].bindingTop..], (ot + [Ref(p)])[cs[i].otherTop..], cs[i].heapTop, cap, snaps[i])
    {
      var seg := ot[cs[i].otherTop..];
      assert (ot + [Ref(p)])[cs[i].otherTop..] == seg + [Ref(p)];
      forall a | 0 <= a < |m| ensures PutBack(seg + [Ref(p)], a, Unbound(bt[cs[i].bindingTop..], a, m[a])) == PutBack(seg, a, Unbound(bt[cs[i].bindingTop..], a, m[a])) {
        PutBackConcat(seg, [Ref(p)], a, Unbound(bt[cs[i].bindingTop..], a, m[a]));
        PutBackMiss([Ref(p)], a, Unbound(bt[cs[i].bindingTop..], a, m[a]));
      }
    }
  }

  // ------------------------------------------------------------------
  // Tidying
  // ------------------------------------------------------------------

  /** The variables of bt that are older than h. */
  function OlderThan(bt: Bindings, h: nat): (r: Bindings)
    ensures forall v :: v in r <==> v in bt && v < h
  {
    if bt == [] then []
    else OlderThan(bt[..|bt| - 1], h) + if bt[|bt| - 1] < h then [bt[|bt| - 1]] else []
  }

  predicate SameLocation(e: Entry, f: Entry) {
    e.Saved? && f.Saved? && e.tag == f.tag && e.addr == f.addr && e.offset == f.offset
  }

  /** The entry e is not needed: it is a reference, its object is not older than h, or an older
      entry is of the same location. */
  predicate Dropped(older: Entries, e: Entry, h: nat, top: nat) {
    e.Ref? || h <= e.addr < top || exists f :: f in older && SameLocation(f, e)
  }

  function Tidied(ot: Entries, h: nat, top: nat): Entries {
    if ot == [] then []
    else
      var n := |ot| - 1;
      Tidied(ot[..n], h, top) + if Dropped(ot[..n], ot[n], h, top) then [] else [ot[n]]
  }

  lemma {:induction false} TidiedMembers(ot: Entries, h: nat, top: nat)
    ensures forall e :: e in Tidied(ot, h, top) ==> e in ot && e.Saved?
  {
    if ot != [] { TidiedMembers(ot[..|ot| - 1], h, top); }
  }

  /** The entry at place k is saved, not for a young cell, and the oldest of its location. */
  predicate OldestAt(ot: Entries, h: nat, top: nat, k: int) {
    && 0 <= k < |ot| && ot[k].Saved? && (ot[k].addr < h || top <= ot[k].addr)
    && forall j :: 0 <= j < k && ot[j].Saved? ==> (ot[j].tag, ot[j].addr, ot[j].offset) != (ot[k].tag, ot[k].addr, ot[k].offset)
  }

  lemma OldestIsKept(ot: Entries, h: nat, top: nat, k: int)
    requires 0 <= k < |ot|
    ensures OldestAt(ot, h, top, k) <==> !Dropped(ot[..k], ot[k], h, top)
  {
    assert forall f :: f in ot[..k] <==> exists j :: 0 <= j < k && ot[j] == f;
    if !OldestAt(ot, h, top, k) && ot[k].Saved? && (ot[k].addr < h || top <= ot[k].addr) {
      var j :| 0 <= j < k && ot[j].Saved? && (ot[j].tag, ot[j].addr, ot[j].offset) == (ot[k].tag, ot[k].addr, ot[k].offset);
      assert SameLocation(ot[j], ot[k]);
    }
  }

  ghost predicate IsOldest(ot: Entries, h: nat, top: nat, e: Entry) { exists k :: OldestAt(ot, h, top, k) && ot[k] == e }

  /** Two such entries, e before f. */
  ghost predicate InOrder(ot: Entries, h: nat, top: nat, e: Entry, f: Entry) {
    exists k, l :: k < l && OldestAt(ot, h, top, k) && OldestAt(ot, h, top, l) && ot[k] == e && ot[l] == f
  }

  /** Tidying keeps exactly these, in order. */
  lemma {:induction false} TidiedExactly(ot: Entries, h: nat, top: nat)
    ensures forall e :: e in Tidied(ot, h, top) <==> IsOldest(ot, h, top, e)
    ensures forall i, j :: 0 <= i < j < |Tidied(ot, h, top)| ==> InOrder(ot, h, top, Tidied(ot, h, top)[i], Tidied(ot, h, top)[j])
  {
    if ot != [] {
      var n := |ot| - 1;
      var older := ot[..n];
      TidiedExactly(older, h, top);
      OldestIsKept(ot, h, top, n);
      var kept, kept' := Tidied(older, h, top), Tidied(ot, h, top);
      assert kept' == kept + if OldestAt(ot, h, top, n) then [ot[n]] else [];
      hide Tidied, Dropped;
      forall e ensures IsOldest(ot, h, top, e) <==> IsOldest(older, h, top, e) || (OldestAt(ot, h, top, n) && e == ot[n]) {
        OneMoreOldest(ot, h, top, e);
      }
      hide OldestAt, IsOldest;
      forall i, j | 0 <= i < j < |kept'| ensures InOrder(ot, h, top, kept'[i], kept'[j]) {
        if j < |kept| {
          StillInOrder(ot, h, top, kept[i], kept[j]);
        } else {
          assert kept[i] in kept;
          LastInOrder(ot, h, top, kept[i]);
        }
      }
    }
  }

  lemma OldestEarlier(ot: Entries, h: nat, top: nat, k: int)
    requires ot != []
    ensures OldestAt(ot[..|ot| - 1], h, top, k) <==> OldestAt(ot, h, top, k) && k < |ot| - 1
    ensures OldestAt(ot, h, top, k) ==> 0 <= k < |ot|
  {
  }

  lemma OneMoreOldest(ot: Entries, h: nat, top: nat, e: Entry)
    requires ot != []
    ensures IsOldest(ot, h, top, e) <==> IsOldest(ot[..|ot| - 1], h, top, e) || (OldestAt(ot, h, top, |ot| - 1) && e == ot[|ot| - 1])
  {
    forall k ensures OldestAt(ot[..|ot| - 1], h, top, k) <==> OldestAt(ot, h, top, k) && k < |ot| - 1 { OldestEarlier(ot, h, top, k); }
    InRange(ot, h, top);
    hide OldestAt;
    if k :| OldestAt(ot, h, top, k) && ot[k] == e {
      if k < |ot| - 1 { assert OldestAt(ot[..|ot| - 1], h, top, k); }
    }
    var older := ot[..|ot| - 1];
    if k :| OldestAt(older, h, top, k) && older[k] == e { assert OldestAt(ot, h, top, k) && ot[k] == e; }
  }

  lemma StillInOrder(ot: Entries, h: nat, top: nat, e: Entry, f: Entry)
    requires ot != [] && InOrder(ot[..|ot| - 1], h, top, e, f)
    ensures InOrder(ot, h, top, e, f)
  {
    var older := ot[..|ot| - 1];
    var k, l :| k < l && OldestAt(older, h, top, k) && OldestAt(older, h, top, l) && older[k] == e && older[l] == f;
    OldestEarlier(ot, h, top, k);
    OldestEarlier(ot, h, top, l);
    hide OldestAt;
    assert ot[k] == e && ot[l] == f;
  }

  lemma LastInOrder(ot: Entries, h: nat, top: nat, e: Entry)
    requires ot != [] && IsOldest(ot[..|ot| - 1], h, top, e) && OldestAt(ot, h, top, |ot| - 1)
    ensures InOrder(ot, h, top, e, ot[|ot| - 1])
  {
    var older := ot[..|ot| - 1];
    var k :| OldestAt(older, h, top, k) && older[k] == e;
    OldestEarlier(ot, h, top, k);
    hide OldestAt;
    assert ot[k] == e;
  }

  lemma InRange(ot: Entries, h: nat, top: nat)
    ensures forall k :: OldestAt(ot, h, top, k) ==> 0 <= k < |ot|
  {
  }

  /** So no two are of one location, and every location that is not young and has an entry keeps one. */
  lemma TidiedLocations(ot: Entries, h: nat, top: nat)
    ensures forall i, j :: 0 <= i < j < |Tidied(ot, h, top)| ==> !SameLocation(Tidied(ot, h, top)[i], Tidied(ot, h, top)[j])
    ensures forall k :: 0 <= k < |ot| && ot[k].Saved? && (ot[k].addr < h || top <= ot[k].addr) ==>
              exists e :: e in Tidied(ot, h, top) && SameLocation(e, ot[k])
  {
    TidiedExactly(ot, h, top);
    forall i, j | 0 <= i < j < |Tidied(ot, h, top)| ensures !SameLocation(Tidied(ot, h, top)[i], Tidied(ot, h, top)[j]) {
      assert InOrder(ot, h, top, Tidied(ot, h, top)[i], Tidied(ot, h, top)[j]);
    }
    forall k | 0 <= k < |ot| && ot[k].Saved? && (ot[k].addr < h || top <= ot[k].addr)
      ensures exists e :: e in Tidied(ot, h, top) && SameLocation(e, ot[k])
    {
      var l := OldestOf(ot, h, top, k);
      assert IsOldest(ot, h, top, ot[l]) && ot[l] in Tidied(ot, h, top);
    }
  }

  lemma {:induction false} OldestOf(ot: Entries, h: nat, top: nat, k: nat) returns (l: nat)
    requires k < |ot| && ot[k].Saved? && (ot[k].addr < h || top <= ot[k].addr)
    ensures l <= k && OldestAt(ot, h, top, l) && SameLocation(ot[l], ot[k])
    decreases k
  {
    if OldestAt(ot, h, top, k) {
      l := k;
    } else {
      var j :| 0 <= j < k && ot[j].Saved? && (ot[j].tag, ot[j].addr, ot[j].offset) == (ot[k].tag, ot[k].addr, ot[k].offset);
      l := OldestOf(ot, h, top, j);
    }
  }

  lemma PutBackOne(e: Entry, a: nat, x: nat)
    ensures PutBack([e], a, x) == if Hits(e, a) then e.was else x
  {
    assert [e][1..] == [];
  }

  /** Tidying does not change what is put back into old cells. */
  lemma {:induction false} TidiedPutBack(ot: Entries, h: nat, top: nat, cap: nat, a: nat, x: nat)
    requires Old(a, h, cap) && top <= cap && forall e :: e in ot && e.Saved? && e.addr < cap ==> e.addr + e.offset < cap
    ensures PutBack(Tidied(ot, h, top), a, x) == PutBack(ot, a, x)
  {
    if ot != [] {
      var n := |ot| - 1;
      var older, e := ot[..n], ot[n];
      assert ot == older + [e] && e in ot;
      PutBackConcat(older, [e], a, x);
      PutBackConcat(Tidied(older, h, top), [e], a, x);
      TidiedPutBack(older, h, top, cap, a, x);
      TidiedPutBack(older, h, top, cap, a, PutBack([e], a, x));
      PutBackOne(e, a, x);
      if e.Saved? && h <= e.addr < top { assert !Hits(e, a); }
      if Hits(e, a) && exists f :: f in older && SameLocation(f, e) {
        var f :| f in older && SameLocation(f, e);
        assert Hits(f, a);
        PutBackHit(older, a, x, PutBack([e], a, x));
      }
      if Dropped(older, e, h, top) { assert Tidied(ot, h, top) == Tidied(older, h, top); }
    }
  }

  lemma TidiedRestores(m: Memory, bt0: Bindings, seg: Bindings, ot0: Entries, ots: Entries, h0: nat, h: nat, top: nat, cap: nat, snap: Memory)
    requires Restores(m, bt0 + seg, ot0 + ots, h0, cap, snap) && h0 <= h && top <= cap && forall v :: v in seg ==> v + 1 < cap
    requires forall e :: e in ots && e.Saved? && e.addr < cap ==> e.addr + e.offset < cap
    ensures Restores(m, bt0 + OlderThan(seg, h), ot0 + Tidied(ots, h, top), h0, cap, snap)
  {
    hide PutBack, Tidied, OlderThan;
    forall a | 0 <= a < |m| && Old(a, h0, cap)
      ensures Undone(bt0 + OlderThan(seg, h), ot0 + Tidied(ots, h, top), a, m[a]) == snap[a]
    {
      assert Unbound(bt0 + OlderThan(seg, h), a, m[a]) == Unbound(bt0 + seg, a, m[a]);
      var x := Unbound(bt0 + seg, a, m[a]);
      PutBackConcat(ot0, ots, a, x);
      PutBackConcat(ot0, Tidied(ots, h, top), a, x);
      TidiedPutBack(ots, h, top, cap, a, x);
    }
  }

  /** From i on, when what there is from j on is replaced by end. */
  lemma SplitFrom<T>(s: seq<T>, i: nat, j: nat, end: seq<T>)
    requires i <= j <= |s|
    ensures s[i..] == s[i..j] + s[j..] && (s[..j] + end)[i..] == s[i..j] + end
  {
  }

  lemma TidiedSnaps(m: Memory, cap: nat, bt: Bindings, ot: Entries, cs: seq<HeapAndTrails>, snaps: seq<Memory>,
                    savedTop: nat, top: nat, refs: set<nat>)
    requires SnapsOk(m, cap, bt, ot, cs, snaps) && ChoicesOk(cs, top, savedTop, cap) && TrailsOk(bt, ot, refs, cs, top, cap, |m|)
    ensures var c := cs[|cs| - 1];
            c.bindingTop <= |bt| && c.otherTop <= |ot|
            && SnapsOk(m, cap, bt[..c.bindingTop] + OlderThan(bt[c.bindingTop..], c.heapTop),
                       ot[..c.otherTop] + Tidied(ot[c.otherTop..], c.heapTop, top), cs, snaps)
  {
    hide Restores, Tidied, OlderThan;
    var c := cs[|cs| - 1];
    var seg, ots := bt[c.bindingTop..], ot[c.otherTop..];
    var bt', ot' := bt[..c.bindingTop] + OlderThan(seg, c.heapTop), ot[..c.otherTop] + Tidied(ots, c.heapTop, top);
    assert (forall v :: v in seg ==> v in bt) && forall e :: e in ots ==> e in ot;
    forall i | 0 <= i < |cs|
      ensures cs[i].bindingTop <= |bt'| && cs[i].otherTop <= |ot'|
      ensures Restores(m, bt'[cs[i].bindingTop..], ot'[cs[i].otherTop..], cs[i].heapTop, cap, snaps[i])
    {
      var b0, o0 := bt[cs[i].bindingTop..c.bindingTop], ot[cs[i].otherTop..c.otherTop];
      SplitFrom(bt, cs[i].bindingTop, c.bindingTop, OlderThan(seg, c.heapTop));
      SplitFrom(ot, cs[i].otherTop, c.otherTop, Tidied(ots, c.heapTop, top));
      TidiedRestores(m, b0, seg, o0, ots, cs[i].heapTop, c.heapTop, top, cap, snaps[i]);
    }
  }

  lemma TidiedTrails(bt: Bindings, ot: Entries, refs: set<nat>, cs: seq<HeapAndTrails>, savedTop: nat, top: nat, cap: nat, n: nat)
    requires ChoicesOk(cs, top, savedTop, cap) && TrailsOk(bt, ot, refs, cs, top, cap, n)
    ensures var c := cs[|cs| - 1];
            c.bindingTop <= |bt| && c.otherTop <= |ot|
            && TrailsOk(bt[..c.bindingTop] + OlderThan(bt[c.bindingTop..], c.heapTop),
                        ot[..c.otherTop] + Tidied(ot[c.otherTop..], c.heapTop, top), refs, cs, top, cap, n)
  {
    hide EntriesOk, Tidied, OlderThan;
    var c := cs[|cs| - 1];
    var seg, ots := bt[c.bindingTop..], ot[c.otherTop..];
    var bt', ot' := bt[..c.bindingTop] + OlderThan(seg, c.heapTop), ot[..c.otherTop] + Tidied(ots, c.heapTop, top);
    TidiedMembers(ots, c.heapTop, top);
    EntriesFewer(bt, ot, bt', ot', refs, top, cap, n);
    forall i | 0 <= i < |cs|
      ensures cs[i].bindingTop <= |bt'| && cs[i].otherTop <= |ot'|
      ensures EntriesOk(bt'[..cs[i].bindingTop], ot'[..cs[i].otherTop], refs, cs[i].heapTop, cap, n)
    {
      assert bt'[..cs[i].bindingTop] == bt[..cs[i].bindingTop] && ot'[..cs[i].otherTop] == ot[..cs[i].otherTop];
    }
  }

  lemma EntriesFewer(bt: Bindings, ot: Entries, bt': Bindings, ot': Entries, refs: set<nat>, h: nat, cap: nat, n: nat)
    requires EntriesOk(bt, ot, refs, h, cap, n)
    requires (forall v :: v in bt' ==> v in bt) && forall e :: e in ot' && e.Saved? ==> e in ot
    ensures EntriesOk(bt', ot', refs, h, cap, n)
  {
  }

  // ------------------------------------------------------------------
  // Backtracking
  // ------------------------------------------------------------------

  /** Unwinding the ends of the trails and then the rest is unwinding them all: this is where it
      matters that the trails write different cells. */
  lemma UnwindInParts(b0: Bindings, b1: Bindings, o0: Entries, o1: Entries, a: nat, x: nat)
    requires Apart(b0 + b1, o0 + o1)
    ensures Undone(b0, o0, a, Undone(b1, o1, a, x)) == Undone(b0 + b1, o0 + o1, a, x)
  {
    hide PutBack;
    PutBackConcat(o0, o1, a, Unbound(b0 + b1, a, x));
    assert (forall v :: v in b0 ==> v in b0 + b1) && forall e :: e in o1 ==> e in o0 + o1;
    assert Apart(b0, o1);
    UnwindInAnyOrder(b0, o1, a, Unbound(b1, a, x));
    assert Unbound(b0, a, Unbound(b1, a, x)) == Unbound(b0 + b1, a, x);
  }

  /** The ends of the trails, from the tops of choice point c on, have been unwound. */
  ghost predicate Unwound(m: Memory, bt: Bindings, ot: Entries, c: HeapAndTrails, m': Memory) {
    && |m'| == |m| && c.bindingTop <= |bt| && c.otherTop <= |ot|
    && forall a :: 0 <= a < |m| ==> m'[a] == Undone(bt[c.bindingTop..], ot[c.otherTop..], a, m[a])
  }

  lemma UnwoundRestores(m: Memory, b0: Bindings, b1: Bindings, o0: Entries, o1: Entries, h: nat, cap: nat, snap: Memory, m': Memory)
    requires Restores(m, b0 + b1, o0 + o1, h, cap, snap) && Apart(b0 + b1, o0 + o1) && |m'| == |m|
    requires forall a :: 0 <= a < |m| ==> m'[a] == Undone(b1, o1, a, m[a])
    ensures Restores(m', b0, o0, h, cap, snap)
  {
    hide Undone, Apart;
    forall a | 0 <= a < |m| && Old(a, h, cap) ensures Undone(b0, o0, a, m'[a]) == snap[a] {
      UnwindInParts(b0, b1, o0, o1, a, m[a]);
    }
  }

  lemma UnwoundSnaps(m: Memory, cap: nat, bt: Bindings, ot: Entries, cs: seq<HeapAndTrails>, snaps: seq<Memory>,
                     savedTop: nat, top: nat, refs: set<nat>, m': Memory)
    requires SnapsOk(m, cap, bt, ot, cs, snaps) && ChoicesOk(cs, top, savedTop, cap) && TrailsOk(bt, ot, refs, cs, top, cap, |m|)
    requires Unwound(m, bt, ot, cs[|cs| - 1], m')
    ensures SnapsOk(m', cap, bt[..cs[|cs| - 1].bindingTop], ot[..cs[|cs| - 1].otherTop], cs, snaps)
  {
    hide Restores, Undone;
    var c := cs[|cs| - 1];
    var b1, o1, bt', ot' := bt[c.bindingTop..], ot[c.otherTop..], bt[..c.bindingTop], ot[..c.otherTop];
    forall i | 0 <= i < |cs|
      ensures cs[i].bindingTop <= |bt'| && cs[i].otherTop <= |ot'|
      ensures Restores(m', bt'[cs[i].bindingTop..], ot'[cs[i].otherTop..], cs[i].heapTop, cap, snaps[i])
    {
      var b0, o0 := bt'[cs[i].bindingTop..], ot'[cs[i].otherTop..];
      assert bt[cs[i].bindingTop..] == b0 + b1;
      assert ot[cs[i].otherTop..] == o0 + o1;
      ApartFrom(bt, ot, refs, top, cap, |m|, cs[i].bindingTop, cs[i].otherTop);
      UnwoundRestores(m, b0, b1, o0, o1, cs[i].heapTop, cap, snaps[i], m');
    }
  }

  lemma ApartFrom(bt: Bindings, ot: Entries, refs: set<nat>, h: nat, cap: nat, n: nat, i: nat, j: nat)
    requires EntriesOk(bt, ot, refs, h, cap, n) && i <= |bt| && j <= |ot|
    ensures Apart(bt[i..], ot[j..])
  {
    EntriesApart(bt, ot, refs, h, cap, n);
    assert (forall v :: v in bt[i..] ==> v in bt) && forall e :: e in ot[j..] ==> e in ot;
  }

  lemma UnwoundTrails(bt: Bindings, ot: Entries, refs: set<nat>, cs: seq<HeapAndTrails>, savedTop: nat, top: nat, cap: nat, n: nat)
    requires ChoicesOk(cs, top, savedTop, cap) && TrailsOk(bt, ot, refs, cs, top, cap, n)
    ensures var c := cs[|cs| - 1];
            && c.bindingTop <= |bt| && c.otherTop <= |ot| && ChoicesOk(cs, c.heapTop, c.heapTop, cap)
            && TrailsOk(bt[..c.bindingTop], ot[..c.otherTop], refs, cs, c.heapTop, cap, n)
  {
    hide EntriesOk;
    var c := cs[|cs| - 1];
    assert c.bindingTop <= |bt| && c.otherTop <= |ot| && c.heapTop <= top;
    var bt', ot' := bt[..c.bindingTop], ot[..c.otherTop];
    assert EntriesOk(bt', ot', refs, c.heapTop, cap, n);
    forall i | 0 <= i < |cs|
      ensures cs[i].bindingTop <= |bt'| && cs[i].otherTop <= |ot'|
      ensures EntriesOk(bt'[..cs[i].bindingTop], ot'[..cs[i].otherTop], refs, cs[i].heapTop, cap, n)
    {
      assert bt'[..cs[i].bindingTop] == bt[..cs[i].bindingTop] && ot'[..cs[i].otherTop] == ot[..cs[i].otherTop];
    }
  }

  lemma {:induction false} RefsConcat(a: Entries, b: Entries)
    ensures Refs(a + b) == Refs(a) + Refs(b)
    decreases |b|
  {
    if b == [] {
      assert a + b == a;
    } else {
      assert (a + b)[..|a + b| - 1] == a + b[..|b| - 1];
      RefsConcat(a, b[..|b| - 1]);
    }
  }

  lemma RefsPush(ot: Entries, e: Entry)
    ensures Refs(ot + [e]) == Refs(ot) + if e.Ref? then multiset{e.pred} else multiset{}
  {
    assert (ot + [e])[..|ot|] == ot;
  }

  /** Choice points dropped from the top. */
  lemma FewerChoices(m: Memory, cap: nat, bt: Bindings, ot: Entries, cs: seq<HeapAndTrails>, snaps: seq<Memory>,
                     savedTop: nat, top: nat, refs: set<nat>, k: nat)
    requires SnapsOk(m, cap, bt, ot, cs, snaps) && ChoicesOk(cs, top, savedTop, cap) && TrailsOk(bt, ot, refs, cs, top, cap, |m|)
    requires 0 < k <= |cs|
    ensures SnapsOk(m, cap, bt, ot, cs[..k], snaps[..k]) && ChoicesOk(cs[..k], top, savedTop, cap)
    ensures TrailsOk(bt, ot, refs, cs[..k], top, cap, |m|)
  {
    hide Restores, EntriesOk;
  }

  /** A choice point made now. */
  lemma OneMoreChoice(m: Memory, cap: nat, bt: Bindings, ot: Entries, cs: seq<HeapAndTrails>, snaps: seq<Memory>,
                      savedTop: nat, top: nat, refs: set<nat>)
    requires SnapsOk(m, cap, bt, ot, cs, snaps) && ChoicesOk(cs, top, savedTop, cap) && TrailsOk(bt, ot, refs, cs, top, cap, |m|)
    ensures var cs' := cs + [HeapAndTrails(top, |bt|, |ot|)];
            && SnapsOk(m, cap, bt, ot, cs', snaps + [m]) && ChoicesOk(cs', top, top, cap)
            && TrailsOk(bt, ot, refs, cs', top, cap, |m|)
  {
    assert bt[|bt|..] == [] && ot[|ot|..] == [] && bt[..|bt|] == bt && ot[..|ot|] == ot;
    assert Restores(m, bt[|bt|..], ot[|ot|..], top, cap, m);
    hide Restores, EntriesOk;
  }

  // ------------------------------------------------------------------
  // Trailing
  // ------------------------------------------------------------------

  /** The quick check: the object is older than savedTop, or not on the heap.  The slow check: tidying
      the trail since the last choice point c would not drop the entry. */
  predicate NeedsTrail(quick: bool, ot: Entries, c: HeapAndTrails, savedTop: nat, top: nat, tag: bool, ptr: nat, offset: nat)
    requires c.otherTop <= |ot|
  {
    if quick then ptr < savedTop || ptr >= top
    else !Dropped(ot[c.otherTop..], Saved(tag, ptr, offset, 0), c.heapTop, top)
  }

  /** The quick check trails what is not young; the slow one what is not young and has no entry since the choice
      point was made. */
  lemma TrailedExactly(ot: Entries, c: HeapAndTrails, savedTop: nat, top: nat, tag: bool, ptr: nat, offset: nat)
    requires c.otherTop <= |ot|
    ensures NeedsTrail(true, ot, c, savedTop, top, tag, ptr, offset) <==> ptr < savedTop || top <= ptr
    ensures NeedsTrail(false, ot, c, savedTop, top, tag, ptr, offset) <==>
            && (ptr < c.heapTop || top <= ptr)
            && forall k :: c.otherTop <= k < |ot| && ot[k].Saved? ==> !(ot[k].tag == tag && ot[k].addr == ptr && ot[k].offset == offset)
  {
    var seg, e := ot[c.otherTop..], Saved(tag, ptr, offset, 0);
    forall k | c.otherTop <= k < |ot| ensures ot[k] in seg { assert seg[k - c.otherTop] == ot[k]; }
    if k :| c.otherTop <= k < |ot| && ot[k].Saved? && ot[k].tag == tag && ot[k].addr == ptr && ot[k].offset == offset {
      assert ot[k] in seg && SameLocation(ot[k], e);
    }
    if f :| f in seg && SameLocation(f, e) {
      var k :| 0 <= k < |seg| && seg[k] == f;
      assert ot[c.otherTop + k] == f;
    }
  }

  /** What is not trailed need not be. */
  lemma UntrailedCell(m: Memory, cap: nat, bt: Bindings, ot: Entries, cs: seq<HeapAndTrails>, snaps: seq<Memory>,
                      savedTop: nat, top: nat, quick: bool, tag: bool, ptr: nat, offset: nat, x: nat)
    requires SnapsOk(m, cap, bt, ot, cs, snaps) && ChoicesOk(cs, top, savedTop, cap) && ptr + offset < |m|
    requires (ptr < top ==> ptr + offset < top) && cs[|cs| - 1].otherTop <= |ot|
    requires !NeedsTrail(quick, ot, cs[|cs| - 1], savedTop, top, tag, ptr, offset)
    ensures SnapsOk(m[ptr + offset := x], cap, bt, ot, cs, snaps)
  {
    hide Restores;
    var c := cs[|cs| - 1];
    if c.heapTop <= ptr < top {
      hide SnapsOk;
      NewCell(m, cap, bt, ot, cs, snaps, ptr + offset, x);
    } else {
      var f :| f in ot[c.otherTop..] && SameLocation(f, Saved(tag, ptr, offset, 0));
      var k :| c.otherTop <= k < |ot| && ot[k] == f;
      hide SnapsOk;
      TrailedCell(m, cap, bt, ot, cs, snaps, k, ptr + offset, x);
    }
  }

  lemma BindingPushed(bt: Bindings, ot: Entries, refs: set<nat>, cs: seq<HeapAndTrails>, top: nat, cap: nat, n: nat, v: nat)
    requires TrailsOk(bt, ot, refs, cs, top, cap, n) && v + 1 in refs && v + 1 < top
    ensures TrailsOk(bt + [v], ot, refs, cs, top, cap, n)
  {
    assert EntriesOk(bt + [v], ot, refs, top, cap, n);
    hide EntriesOk;
    forall i | 0 <= i < |cs| ensures (bt + [v])[..cs[i].bindingTop] == bt[..cs[i].bindingTop] {}
  }

  lemma EntryPushed(bt: Bindings, ot: Entries, refs: set<nat>, cs: seq<HeapAndTrails>, top: nat, cap: nat, n: nat, e: Entry)
    requires TrailsOk(bt, ot, refs, cs, top, cap, n)
    requires e.Saved? ==> e.addr + e.offset !in refs && e.addr + e.offset < n
                          && if e.addr < cap then e.addr + e.offset < top <= cap else e.addr + e.offset >= cap
    ensures TrailsOk(bt, ot + [e], refs, cs, top, cap, n)
  {
    assert EntriesOk(bt, ot + [e], refs, top, cap, n);
    hide EntriesOk;
    forall i | 0 <= i < |cs| ensures (ot + [e])[..cs[i].otherTop] == ot[..cs[i].otherTop] {}
  }

  /** New words, of which those in variables are reference cells. */
  lemma AllocateOk(bt: Bindings, ot: Entries, refs: set<nat>, cs: seq<HeapAndTrails>, top: nat, savedTop: nat, cap: nat, n: nat,
                   words: nat, variables: set<nat>)
    requires ChoicesOk(cs, top, savedTop, cap) && TrailsOk(bt, ot, refs, cs, top, cap, n) && top + words <= cap
    requires forall a :: a in variables ==> top < a < top + words
    ensures ChoicesOk(cs, top + words, savedTop, cap)
    ensures TrailsOk(bt, ot, (set a | a in refs && a < top) + variables, cs, top + words, cap, n)
  {
    var refs' := (set a | a in refs && a < top) + variables;
    assert EntriesOk(bt, ot, refs', top + words, cap, n);
    forall i | 0 <= i < |cs| ensures EntriesOk(bt[..cs[i].bindingTop], ot[..cs[i].otherTop], refs', cs[i].heapTop, cap, n) {
      assert cs[i].heapTop <= top;
    }
  }

  /** An updated word is not the reference cell of a trailed variable. */
  lemma NotBound(bt: Bindings, ot: Entries, refs: set<nat>, cs: seq<HeapAndTrails>, top: nat, cap: nat, n: nat, a: nat)
    requires TrailsOk(bt, ot, refs, cs, top, cap, n) && a !in refs
    ensures forall v :: v in bt ==> v + 1 != a
  {
  }

  lemma TopsIn(bt: Bindings, ot: Entries, refs: set<nat>, cs: seq<HeapAndTrails>, top: nat, cap: nat, n: nat, savedTop: nat)
    requires TrailsOk(bt, ot, refs, cs, top, cap, n) && ChoicesOk(cs, top, savedTop, cap)
    ensures cs[|cs| - 1].bindingTop <= |bt| && cs[|cs| - 1].otherTop <= |ot| && cs[|cs| - 1].heapTop <= savedTop
  {
  }

  // ------------------------------------------------------------------
  // Steps of the loops
  // ------------------------------------------------------------------

  lemma SnapsLength(m: Memory, cap: nat, bt: Bindings, ot: Entries, cs: seq<HeapAndTrails>, snaps: seq<Memory>)
    requires SnapsOk(m, cap, bt, ot, cs, snaps)
    ensures |snaps| == |cs|
  {
  }

  lemma EntriesInside(bt: Bindings, ot: Entries, refs: set<nat>, cs: seq<HeapAndTrails>, top: nat, cap: nat, n: nat)
    requires TrailsOk(bt, ot, refs, cs, top, cap, n) && top <= cap <= n
    ensures forall v :: v in bt ==> v + 1 < n
    ensures forall e :: e in ot && e.Saved? ==> e.addr + e.offset < n
  {
  }

  lemma BothUnwound(m: Memory, m1: Memory, m2: Memory, bt: Bindings, ot: Entries, c: HeapAndTrails)
    requires |m| == |m1| == |m2| && c.bindingTop <= |bt| && c.otherTop <= |ot|
    requires forall a :: 0 <= a < |m| ==> m1[a] == Unbound(bt[c.bindingTop..], a, m[a])
    requires forall a :: 0 <= a < |m| ==> m2[a] == PutBack(ot[c.otherTop..], a, m1[a])
    ensures Unwound(m, bt, ot, c, m2)
  {
  }

  /** With nothing to unwind, the memory is what it was. */
  lemma BackThen(m: Memory, cap: nat, bt: Bindings, ot: Entries, cs: seq<HeapAndTrails>, snaps: seq<Memory>)
    requires SnapsOk(m, cap, bt, ot, cs, snaps) && |cs| > 0
    requires cs[|cs| - 1].bindingTop == |bt| && cs[|cs| - 1].otherTop == |ot|
    ensures |snaps| == |cs| && |snaps[|cs| - 1]| == |m|
    ensures forall a :: 0 <= a < |m| && Old(a, cs[|cs| - 1].heapTop, cap) ==> m[a] == snaps[|cs| - 1][a]
  {
    assert Restores(m, bt[|bt|..], ot[|ot|..], cs[|cs| - 1].heapTop, cap, snaps[|cs| - 1]);
    assert bt[|bt|..] == [] && ot[|ot|..] == [];
    forall a | 0 <= a < |m| && Old(a, cs[|cs| - 1].heapTop, cap) ensures m[a] == snaps[|cs| - 1][a] {
      assert Undone([], [], a, m[a]) == m[a];
    }
  }

  lemma NoOlder(h: nat)
    ensures forall seg: Bindings :: OlderThan(seg[..0], h) == []
  {
  }

  lemma OlderNext(seg: Bindings, k: nat, h: nat)
    requires k < |seg|
    ensures OlderThan(seg[..k + 1], h) == OlderThan(seg[..k], h) + if seg[k] < h then [seg[k]] else []
  {
    assert seg[..k + 1][..k] == seg[..k];
  }

  lemma TidyStart(below: Entries, seg: Entries, h: nat, top: nat)
    ensures Tidied(seg, h, top) == Tidied(seg[..|seg|], h, top) + []
    ensures below + seg == below + seg[..|seg|] + []
  {
    assert seg[..|seg|] == seg;
  }

  lemma TidyStep(below: Entries, seg: Entries, k: nat, keep: Entries, h: nat, top: nat)
    requires k < |seg|
    ensures Tidied(seg[..k + 1], h, top) + keep ==
            Tidied(seg[..k], h, top) + if Dropped(seg[..k], seg[k], h, top) then keep else [seg[k]] + keep
    ensures var rest := below + seg[..k] + (if Dropped(seg[..k], seg[k], h, top) then keep else [seg[k]] + keep);
            Refs(below + seg[..k + 1] + keep) == Refs(rest) + if seg[k].Ref? then multiset{seg[k].pred} else multiset{}
    ensures seg[k].Ref? ==> Dropped(seg[..k], seg[k], h, top)
  {
    assert seg[..k + 1][..k] == seg[..k];
    assert Tidied(seg[..k + 1], h, top) == Tidied(seg[..k], h, top) + if Dropped(seg[..k], seg[k], h, top) then [] else [seg[k]];
    assert seg[k].Ref? ==> Dropped(seg[..k], seg[k], h, top);
    hide Tidied, Dropped, Refs;
    assert below + seg[..k + 1] + keep == below + seg[..k] + ([seg[k]] + keep);
    RefsBetween(below + seg[..k], seg[k], keep);
  }

  lemma RefsBetween(a: Entries, e: Entry, b: Entries)
    ensures Refs(a + ([e] + b)) == Refs(a + b) + if e.Ref? then multiset{e.pred} else multiset{}
  {
    hide Refs;
    RefsConcat(a, [e] + b);
    RefsConcat(a, b);
    RefsConcat([e], b);
    RefsOne(e);
  }

  lemma RefsOne(e: Entry)
    ensures Refs([e]) == if e.Ref? then multiset{e.pred} else multiset{}
  {
    assert [e][..0] == [];
  }

  lemma TidyEnd(below: Entries, seg: Entries, keep: Entries, h: nat, top: nat)
    ensures Tidied(seg[..0], h, top) + keep == keep && below + seg[..0] + keep == below + keep
  {
  }
}
