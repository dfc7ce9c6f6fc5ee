/** A whole collection: mark from the words outside the heap, thread them, compact. */
module Collector {
  import opened HeapWords
  import opened Marking
  import opened Compaction
  import opened CompactionPasses
  import opened SavedTops
  import opened TrailCollection

  /** The heap before a collection: objs are the objects, in [0, top), that do not overlap; every
      address of a heap cell held in an object or outside the heap is the address of an object.  The
      binding trail holds heap addresses; a saved top is the address of an object or the top. */
  ghost predicate HeapOk(h: seq<Word>, a: Areas, top: nat, objs: set<int>) {
    && a.Ok() && top < a.cap && a.tops < |h|
    && (forall o :: o in objs ==> HeapObjectOk(h, a.cap, top, objs, o))
    && (forall m, n :: m in objs && n in objs && m < n ==> m + h[m].Size() <= n)
    && (forall c :: a.cap <= c < a.tops ==> AddressOk(h[c], a.cap, objs) && (c < a.objects ==> HeapPtr(h[c], a.cap)))
    && (forall c :: a.tops <= c < |h| ==> h[c].Addr? && (h[c].cell in objs || h[c].cell == top))
  }

  ghost predicate HeapObjectOk(h: seq<Word>, cap: nat, top: nat, objs: set<int>, o: int)
    requires top < cap <= |h|
  {
    && 0 <= o < top && h[o].Tag? && o + h[o].Size() <= top
    && (HasPointers(h[o]) ==>
          h[o].Size() >= 2 && forall c :: o < c < o + h[o].Size() ==> AddressOk(h[c], cap, objs))
  }

  predicate AddressOk(w: Word, cap: nat, objs: set<int>) {
    w.Addr? && (0 <= w.cell < cap ==> w.cell in objs)
  }

  /** The heaps that can be collected, spelled out: every object is in the heap below top, overlaps no other, and has
      words that are addresses unless it is a number or a string; heap addresses are those of objects. */
  lemma HeapIs(h: seq<Word>, a: Areas, top: nat, objs: set<int>)
    requires top < a.cap <= a.objects <= a.tags <= a.roots <= a.tops < |h| && exists n: nat :: a.tags == a.objects + 2 * n
    requires forall o :: o in objs ==> 0 <= o < top && h[o].Tag? && o + h[o].Size() <= top
    requires forall m, n :: m in objs && n in objs && m < n ==> m + h[m].Size() <= n
    requires forall o :: o in objs && !h[o].kind.Short? && !h[o].kind.Long? && !h[o].kind.Double? && !h[o].kind.Str? ==>
               && (h[o].kind.SubBlock? ==> h[o].n > 0)
               && forall c :: o < c < o + h[o].Size() ==> h[c].Addr? && (0 <= h[c].cell < a.cap ==> h[c].cell in objs)
    requires forall c :: a.cap <= c < a.tops ==> h[c].Addr? && (0 <= h[c].cell < a.cap ==> h[c].cell in objs)
    requires forall c :: a.cap <= c < a.objects ==> 0 <= h[c].cell < a.cap
    requires forall c :: a.tops <= c < |h| ==> h[c].Addr? && (h[c].cell in objs || h[c].cell == top)
    ensures HeapOk(h, a, top, objs)
  {
    forall o | o in objs ensures HeapObjectOk(h, a.cap, top, objs, o) {}
  }

  /** The objects reachable from the words [from, end) outside the heap. */
  ghost predicate Needed(h: seq<Word>, from: nat, top: nat, end: int, m: int) {
    exists c :: from <= c < end && c < |h| && h[c].Addr? && m in ReachableFrom(h, top, h[c].cell)
  }

  /** What is marked when the words that are in no trail have been traced: what they need, and the last object. */
  ghost function RootMarks(h: seq<Word>, a: Areas, top: nat): set<int> {
    set m | 0 <= m < top && (m == top - 1 || Needed(h, a.roots, top, a.tops, m))
  }

  /** What is marked when the trail has been traced as well. */
  ghost function Traced(h: seq<Word>, a: Areas, top: nat): set<int> {
    TrailMarks(h, a.cap, top, a.objects, a.tags, RootMarks(h, a, top))
  }

  /** The heap with the one-word object newShort(0) at its end. */
  ghost function Ended(h: seq<Word>, top: nat): seq<Word>
    requires top < |h|
  {
    h[top := ZERO]
  }

  /** The layout of the collection when marks are marked by tracing. */
  ghost function LayoutOf(h: seq<Word>, a: Areas, top: nat, marks: set<int>): Layout
    requires top < |h|
  {
    WithTops(Trimmed(Ended(h, top), a, marks), a.tops, marks, a.cap, top + 1)
  }

  lemma MarkingHeap(h: seq<Word>, a: Areas, top: nat, objs: set<int>)
    requires HeapOk(h, a, top, objs)
    ensures WellFormed(Ended(h, top), top + 1, objs + {top}) && Apart(Ended(h, top), top + 1, objs + {top})
    ensures Saved(Ended(h, top), a.tops, top + 1, objs + {top})
    ensures Closed(Ended(h, top), top + 1, {top})
  {
    var h', objs' := Ended(h, top), objs + {top};
    forall o | o in objs' ensures ObjectOk(h', top + 1, objs', o) {
      if o != top {
        assert HeapObjectOk(h, a.cap, top, objs, o);
      }
    }
  }

  /** What marking leaves is a layout that compaction accepts, if the trails can be swept. */
  lemma LayoutOk(h: seq<Word>, a: Areas, top: nat, objs: set<int>, marks: set<int>)
    requires HeapOk(h, a, top, objs)
    requires top in marks && marks <= objs + {top}
    requires Closed(Ended(h, top), top + 1, marks) && TrailSafe(Ended(h, top), a, marks)
    requires forall c :: a.roots <= c < a.tops && HeapPtr(h[c], a.cap) ==> h[c].cell in marks
    ensures LayoutOf(h, a, top, marks).Ok()
  {
    var t, objs' := Trimmed(Ended(h, top), a, marks), objs + {top};
    MarkingHeap(h, a, top, objs);
    TrimmedOk(Ended(h, top), a, top + 1, objs', marks);
    forall m, c | m in marks && 1 <= c - m <= t[m].LastSlot() && HeapPtr(t[c], a.cap) ensures t[c].cell in marks {
      assert m in objs';
      MarkedPointer(h, a, top, objs, marks, m, c);
    }
    TrailWords(Ended(h, top), a, marks);
    hide Trimmed, TrailSafe, HeapOk;
    WithTopsOk(t, a.tops, marks, a.cap, top + 1, objs');
  }

  lemma TrailWords(h: seq<Word>, a: Areas, marks: set<int>)
    requires a.Ok() && a.tops <= |h| && TrailSafe(h, a, marks)
    ensures forall c :: a.cap <= c < a.roots && HeapPtr(Trimmed(h, a, marks)[c], a.cap) ==> Trimmed(h, a, marks)[c].cell in marks
  {
    hide Dropped;
  }

  lemma MarkedPointer(h: seq<Word>, a: Areas, top: nat, objs: set<int>, marks: set<int>, m: int, c: int)
    requires HeapOk(h, a, top, objs) && Closed(Ended(h, top), top + 1, marks) && m in marks && m in objs + {top}
    requires Ended(h, top)[m].Tag? && 1 <= c - m <= Ended(h, top)[m].LastSlot() && c < |h| && HeapPtr(Ended(h, top)[c], a.cap)
    ensures Ended(h, top)[c].cell in marks
  {
    assert m != top;
    assert HeapObjectOk(h, a.cap, top, objs, m);
    assert AddressOk(h[c], a.cap, objs);
    assert HeapObjectOk(h, a.cap, top, objs, h[c].cell);
    assert Edge(Ended(h, top), top + 1, m, h[c].cell);
  }

  ghost predicate MarkedFrom(h: seq<Word>, from: nat, top: nat, end: int, marks: set<int>) {
    && Closed(h, top, marks)
    && forall m :: m in marks <==> m == top - 1 || Needed(h, from, top, end, m)
  }

  lemma MarkedNext(h: seq<Word>, from: nat, top: nat, c: nat, marks: set<int>, marks': set<int>)
    requires from <= c < |h| && h[c].Addr? && MarkedFrom(h, from, top, c, marks)
    requires Closed(h, top, marks') && marks' == marks + ReachableFrom(h, top, h[c].cell)
    ensures MarkedFrom(h, from, top, c + 1, marks')
  {
    forall m ensures m in marks' <==> m == top - 1 || Needed(h, from, top, c + 1, m) {
      if Needed(h, from, top, c + 1, m) && !Needed(h, from, top, c, m) {
        var d :| from <= d < c + 1 && h[d].Addr? && m in ReachableFrom(h, top, h[d].cell);
        assert d == c;
      }
    }
  }

  /** gc_marking_phase over the words outside the heap that are no saved tops. */
  method MarkRoots(mem: array<Word>, from: nat, end: nat, top: nat, gcstack: ObjectsStack, gcbits: GcBits, ghost objs: set<int>)
    requires top <= from <= end <= mem.Length && WellFormed(mem[..], top, objs)
    requires top <= BITS_PER_WORD * gcbits.words.Length && AllFit(gcbits.words[..])
    requires Marks(gcbits.words[..]) == {top - 1} && top - 1 in objs && Closed(mem[..], top, {top - 1})
    requires forall c :: from <= c < end ==> PointerOk(mem[c], top, objs)
    modifies gcstack, gcbits.words
    ensures AllFit(gcbits.words[..]) && Marks(gcbits.words[..]) <= objs
    ensures MarkedFrom(mem[..], from, top, end, Marks(gcbits.words[..]))
  {
    hide WellFormed, Closed, AllFit, Marks, PointerOk, Needed;
    ghost var h := mem[..];
    MarkedNone(h, from, top);
    var c := from;
    while c < end
      invariant from <= c <= end && AllFit(gcbits.words[..])
      invariant Marks(gcbits.words[..]) <= objs && MarkedFrom(h, from, top, c, Marks(gcbits.words[..]))
    {
      ghost var marks := Marks(gcbits.words[..]);
      PointerAddress(mem[c], top, objs);
      GcMarkPointer(mem[c], mem, top, gcstack, gcbits, objs);
      MarkedNext(h, from, top, c, marks, Marks(gcbits.words[..]));
      c := c + 1;
    }
  }

  lemma MarkedNone(h: seq<Word>, from: nat, top: nat)
    requires Closed(h, top, {top - 1})
    ensures MarkedFrom(h, from, top, from, {top - 1})
  {
  }

  lemma PointerAddress(w: Word, top: nat, objs: set<int>)
    requires PointerOk(w, top, objs)
    ensures w.Addr?
  {
  }

  lemma MarkedRoots(h: seq<Word>, a: Areas, top: nat, marks: set<int>)
    requires MarkedFrom(h, a.roots, top, a.tops, marks) && top > 0
    ensures marks == RootMarks(h, a, top) && Closed(h, top, marks) && top - 1 in marks
  {
    hide Closed;
  }

  lemma RootsMarked(h: seq<Word>, a: Areas, top: nat, objs: set<int>)
    requires HeapOk(h, a, top, objs)
    ensures var marks := RootMarks(Ended(h, top), a, top + 1);
            top in marks && forall c :: a.roots <= c < a.tops && HeapPtr(h[c], a.cap) ==> h[c].cell in marks && h[c].cell in objs
  {
    var h' := Ended(h, top);
    forall c | a.roots <= c < a.tops && HeapPtr(h[c], a.cap)
      ensures h[c].cell in RootMarks(h', a, top + 1) && h[c].cell in objs
    {
      assert AddressOk(h[c], a.cap, objs);
      assert HeapObjectOk(h, a.cap, top, objs, h[c].cell);
      ReachableSelf(h', top + 1, h[c].cell);
      assert h'[c] == h[c];
      assert Needed(h', a.roots, top + 1, a.tops, h[c].cell);
    }
  }

  lemma RootsThreaded(L: Layout)
    ensures SlotsIn(L, L.cap, |L.h|) == FwdThreaded(L, 0) && {} == FwdDone(L, 0) && L.NewAddress(0) == 0
  {
  }

  /** gc_marking_phase: the last object, what the words in no trail lead to, and what the trail does. */
  method MarkAll(mem: array<Word>, a: Areas, top0: nat, gcstack: ObjectsStack, gcbits: GcBits, ghost objs: set<int>)
    requires HeapOk(mem[..], a, top0, objs)
    requires 1 + (top0 + 1) / BITS_PER_WORD < gcbits.words.Length
    requires AllFit(gcbits.words[..]) && Marks(gcbits.words[..]) == {}
    modifies mem, gcstack, gcbits.words
    ensures top0 < mem.Length && mem[..] == Ended(old(mem[..]), top0)
    ensures AllFit(gcbits.words[..]) && Marks(gcbits.words[..]) == Traced(mem[..], a, top0 + 1)
    ensures Closed(mem[..], top0 + 1, Marks(gcbits.words[..])) && Marks(gcbits.words[..]) <= objs + {top0}
  {
    hide WellFormed, Closed, AllFit, Marks, PointerOk, HeapOk, MarkedFrom, Apart, Saved, RootMarks;
    ghost var h := mem[..];
    HeapBounds(h, a, top0, objs);
    MarkingHeap(h, a, top0, objs);
    mem[top0] := ZERO;
    ghost var h' := Ended(h, top0);
    assert mem[..] == h';
    gcbits.SetBit(top0);
    MarkRoots(mem, a.roots, a.tops, top0 + 1, gcstack, gcbits, objs + {top0});
    MarkedRoots(h', a, top0 + 1, Marks(gcbits.words[..]));
    MarkTrail(mem, a, top0 + 1, gcstack, gcbits, objs + {top0});
  }

  /** Thread::gc on the words outside the heap, when the trails can be swept.  marks is what tracing marked; L is
      the heap without the trail entries that are dropped and with the saved tops that were not marked, and records
      where every object has to go. */
  method Collect(mem: array<Word>, a: Areas, top0: nat, gcstack: ObjectsStack, gcbits: GcBits, ghost objs: set<int>)
    returns (newTop: nat, ghost marks: set<int>, ghost L: Layout)
    requires HeapOk(mem[..], a, top0, objs)
    requires 1 + (top0 + 1) / BITS_PER_WORD < gcbits.words.Length
    requires AllFit(gcbits.words[..]) && Marks(gcbits.words[..]) == {}
    requires TrailSafe(Ended(mem[..], top0), a, Traced(Ended(mem[..], top0), a, top0 + 1))
    modifies mem, gcstack, gcbits.words
    ensures top0 < mem.Length && marks == Traced(Ended(old(mem[..]), top0), a, top0 + 1)
    ensures Closed(Ended(old(mem[..]), top0), top0 + 1, marks) && marks <= objs + {top0}
    ensures L == LayoutOf(old(mem[..]), a, top0, marks) && L.Ok()
    ensures Compacted(L, mem[..]) && newTop == L.NewAddress(top0)
    ensures forall v :: 0 <= v < gcbits.words.Length ==> gcbits.words[v] == 0
  {
    hide WellFormed, Closed, AllFit, Marks, PointerOk, HeapOk, Apart, Saved, Layout.Ok, WithTops, Compacted, RootMarks, TrailMarks, TrailSafe,
      Trimmed;
    ghost var h := mem[..];
    HeapBounds(h, a, top0, objs);
    MarkingHeap(h, a, top0, objs);
    RootsMarked(h, a, top0, objs);
    MarkAll(mem, a, top0, gcstack, gcbits, objs);
    marks := Marks(gcbits.words[..]);
    LayoutOk(h, a, top0, objs, marks);
    L := LayoutOf(h, a, top0, marks);
    newTop := Compact(mem, a, top0 + 1, gcbits, L, objs + {top0}, marks);
  }

  /** gc_compaction_phase */
  method Compact(mem: array<Word>, a: Areas, top: nat, gcbits: GcBits, ghost L: Layout, ghost objs: set<int>, ghost marks: set<int>)
    returns (newTop: nat)
    requires a.Ok() && 0 < top <= a.cap && a.tops < mem.Length && marks <= objs
    requires Saved(mem[..], a.tops, top, objs) && Apart(mem[..], top, objs) && TrailSafe(mem[..], a, marks)
    requires forall c :: a.cap <= c < a.objects ==> HeapPtr(mem[c], a.cap)
    requires forall c :: a.cap <= c < a.roots && HeapPtr(mem[c], a.cap) ==> mem[c].cell in objs
    requires L.Ok() && L == WithTops(Trimmed(mem[..], a, marks), a.tops, marks, a.cap, top) && top - 1 in marks && mem[top - 1] == ZERO
    requires forall c :: a.roots <= c < a.tops && HeapPtr(mem[c], a.cap) ==> mem[c].cell in marks
    requires 1 + top / BITS_PER_WORD < gcbits.words.Length && AllFit(gcbits.words[..]) && Marks(gcbits.words[..]) == marks
    modifies mem, gcbits.words
    ensures Compacted(L, mem[..]) && newTop == L.NewAddress(top - 1)
    ensures forall v :: 0 <= v < gcbits.words.Length ==> gcbits.words[v] == 0
  {
    hide AllFit, Marks, Apart, Saved, Layout.Ok, Layout.NewAddress, WithTops, Swept, Cleared, Threaded, FwdThreaded, FwdDone, SlotsIn,
      Untouched, MovedObject, BitsFrom, Backward, Tops, Trimmed, TrailSafe, Dropped;
    ghost var h := Trimmed(mem[..], a, marks);
    TrimmedOk(mem[..], a, top, objs, marks);
    TopMarks(L, h, a.tops, marks, a.cap, top);
    assert L.h[top - 1] == ZERO by { WithTopsAre(h, a.tops, marks, a.cap, top, objs); }
    ghost var ch := NothingSwept(L, h, a.tops, marks, a.cap, top);
    ch := SweepTrail(mem, a, gcbits, top, L, mem[..], objs, marks, ch);
    ch := SweepRoots(mem, a.cap, a.roots, a.tops, top, L, h, objs, marks, ch);
    ch := SweepTops(mem, a.cap, a.tops, gcbits, top, L, h, objs, marks, ch);
    RootsThreaded(L);
    SentinelSet(L, gcbits.words[..], 1 + top / BITS_PER_WORD);
    ghost var p, free;
    p, free, ch := UpdateForwardPointers(mem, a.cap, top, gcbits, L, ch);
    Turn(L, mem[..], p, free, ch);
    newTop := UpdateBackwardPointers(mem, top, gcbits, L, ch);
  }

  lemma HeapBounds(h: seq<Word>, a: Areas, top: nat, objs: set<int>)
    requires HeapOk(h, a, top, objs)
    ensures a.Ok() && top < a.cap && a.tops < |h|
    ensures forall c :: a.cap <= c < a.tops ==> PointerOk(h[c], top + 1, objs + {top}) && (HeapPtr(h[c], a.cap) ==> h[c].cell in objs)
    ensures forall c :: a.cap <= c < a.objects ==> HeapPtr(h[c], a.cap)
  {
    forall c | a.cap <= c < a.tops ensures PointerOk(h[c], top + 1, objs + {top}) && (HeapPtr(h[c], a.cap) ==> h[c].cell in objs) {
      assert AddressOk(h[c], a.cap, objs);
    }
  }

  /** Every marked object is at its new address with its pointers relocated, and so is every
      word outside the heap. */
  ghost predicate Compacted(L: Layout, mem: seq<Word>)
    requires L.Ok()
  {
    && |mem| == |L.h|
    && (forall m :: m in L.marks ==> MovedObject(L, mem, m))
    && (forall c :: L.cap <= c < |L.h| ==> mem[c] == L.Relocated(c))
  }

  // ------------------------------------------------------------------
  // A collection is invisible: what is seen from outside stays the same
  // ------------------------------------------------------------------

  /** What a word leads to, followed to a given depth.  Cell numbers inside the heap do not show. */
  datatype View =
    | Cut
    | Outside(w: Word)
    | Broken
    | Object(tag: Word, parts: seq<View>)

  function Unfold(mem: seq<Word>, cap: nat, w: Word, depth: nat): View
    decreases depth
  {
    if !HeapPtr(w, cap) then Outside(w)
    else if depth == 0 then Cut
    else if w.cell >= |mem| || !mem[w.cell].Tag? || w.cell + mem[w.cell].Size() > |mem| then Broken
    else
      var o := w.cell;
      Object(mem[o],
             seq(mem[o].Size() - 1,
                 i requires 0 <= i < mem[o].Size() - 1 =>
                   if i + 1 <= mem[o].LastSlot() then Unfold(mem, cap, mem[o + i + 1], depth - 1)
                   else Outside(mem[o + i + 1])))
  }

  /** Word i + 1 of a marked object, before and after. */
  lemma MovedWord(L: Layout, mem: seq<Word>, m: int, i: nat)
    requires L.Ok() && Compacted(L, mem) && m in L.marks && i < L.h[m].Size() - 1
    ensures var c, a := m + i + 1, L.NewAddress(m) + i + 1;
            && c < |L.h| && a < |mem|
            && (if L.Slot(c)
                then i + 1 <= L.h[m].LastSlot() && L.Target(c) in L.marks && L.h[c] == Addr(L.Target(c))
                     && mem[a] == Addr(L.NewAddress(L.Target(c)))
                else mem[a] == L.h[c] && (i + 1 <= L.h[m].LastSlot() ==> !HeapPtr(L.h[c], L.cap)))
  {
    hide Layout.NewAddress, Layout.Owner, Layout.Relocated, MovedObject;
    var c := m + i + 1;
    MovedImage(L, mem, m, i + 1);
    OwnerInside(L, m, c);
    RelocatedWord(L, c);
    if L.Slot(c) { SlotTarget(L, c); }
  }

  /** The words of a moved object, kind by kind: every address in the heap is relocated, but for the last word of
      an extended variable; the words of numbers and strings, and all words that are no such addresses, are as they were. */
  lemma MovedParts(L: Layout, mem: seq<Word>, m: int, k: nat)
    requires L.Ok() && Compacted(L, mem) && m in L.marks && 1 <= k < L.h[m].Size()
    ensures m + k < |L.h| && L.NewAddress(m) + k < |mem|
    ensures var was, now := L.h[m + k], mem[L.NewAddress(m) + k];
            match L.h[m].kind
            case Short => now == was
            case Long => now == was
            case Double => now == was
            case Str => now == was
            case VarExtended =>
              now == if k < 4 && was.Addr? && 0 <= was.cell < L.cap then Addr(L.NewAddress(was.cell)) else was
            case _ => now == if was.Addr? && 0 <= was.cell < L.cap then Addr(L.NewAddress(was.cell)) else was
  {
    hide Layout.NewAddress, Compacted, Layout.Slot;
    MovedWord(L, mem, m, k - 1);
    if L.Slot(m + k) { SlotTarget(L, m + k); }
  }

  lemma RelocatedWord(L: Layout, c: nat)
    requires c < |L.h|
    ensures L.Relocated(c) == if L.Slot(c) then Addr(L.NewAddress(L.Target(c))) else L.h[c]
  {
  }

  lemma MovedImage(L: Layout, mem: seq<Word>, m: int, k: nat)
    requires L.Ok() && Compacted(L, mem) && m in L.marks && k < L.h[m].Size()
    ensures m + k < |L.h| && L.NewAddress(m) + k < |mem| && mem[L.NewAddress(m) + k] == L.Relocated(m + k)
  {
    hide Layout.NewAddress, Layout.Relocated, Layout.Owner;
    var a := L.NewAddress(m);
    assert MovedObject(L, mem, m);
    assert mem[a + k] == L.Relocated(m + (a + k - a));
  }

  lemma MovedHeader(L: Layout, mem: seq<Word>, m: int)
    requires L.Ok() && Compacted(L, mem) && m in L.marks
    ensures 0 <= L.NewAddress(m) <= m < L.cap && L.h[m].Tag? && m + L.h[m].Size() <= |L.h|
    ensures L.NewAddress(m) + L.h[m].Size() <= |mem| && mem[L.NewAddress(m)] == L.h[m]
  {
    assert MovedObject(L, mem, m);
    SlidesDown(L, m);
    MovedImage(L, mem, m, 0);
    if L.Slot(m) { SlotIsNoHeader(L, m); }
  }

  /** Following the new address of a marked object shows what following its old address showed. */
  lemma {:induction false} CompactionKeepsView(L: Layout, mem: seq<Word>, m: int, depth: nat)
    requires L.Ok() && Compacted(L, mem) && m in L.marks
    ensures Unfold(L.h, L.cap, Addr(m), depth) == Unfold(mem, L.cap, Addr(L.NewAddress(m)), depth)
    decreases depth
  {
    hide Layout.Ok, Compacted, Layout.NewAddress, Layout.Slot;
    var a := L.NewAddress(m);
    MovedHeader(L, mem, m);
    if depth > 0 {
      var before, after := Unfold(L.h, L.cap, Addr(m), depth), Unfold(mem, L.cap, Addr(a), depth);
      forall i | 0 <= i < L.h[m].Size() - 1 ensures before.parts[i] == after.parts[i] {
        MovedWord(L, mem, m, i);
        if L.Slot(m + i + 1) {
          CompactionKeepsView(L, mem, L.Target(m + i + 1), depth - 1);
        } else if i + 1 <= L.h[m].LastSlot() {
          var w := L.h[m + i + 1];
          assert Unfold(L.h, L.cap, w, depth - 1) == Outside(w) == Unfold(mem, L.cap, w, depth - 1);
        }
      }
      assert before.parts == after.parts;
    }
  }

  /** What tracing marked is seen as before in the heap that compaction works on. */
  lemma {:induction false} MarkedSeen(h: seq<Word>, a: Areas, top: nat, objs: set<int>, marks: set<int>, w: Word, depth: nat)
    requires HeapOk(h, a, top, objs) && marks <= objs + {top} && Closed(Ended(h, top), top + 1, marks)
    requires HeapPtr(w, a.cap) ==> w.cell in objs && w.cell in marks
    ensures Unfold(h, a.cap, w, depth) == Unfold(LayoutOf(h, a, top, marks).h, a.cap, w, depth)
    decreases depth
  {
    hide Closed, HeapOk, LayoutOf;
    HeapBounds(h, a, top, objs);
    var h' := LayoutOf(h, a, top, marks).h;
    if HeapPtr(w, a.cap) && depth > 0 {
      var o := w.cell;
      MarkedWords(h, a, top, objs, marks, o);
      MarkedPointers(h, a, top, objs, marks, o);
      var before, after := Unfold(h, a.cap, w, depth), Unfold(h', a.cap, w, depth);
      forall i | 0 <= i < h[o].Size() - 1 ensures before.parts[i] == after.parts[i] {
        var c := o + i + 1;
        assert h'[c] == h[c];
        if i + 1 <= h[o].LastSlot() { MarkedSeen(h, a, top, objs, marks, h[c], depth - 1); }
      }
      assert before.parts == after.parts;
    }
  }

  /** The layout of a collection, as WithTopsAre says. */
  lemma LayoutIs(h: seq<Word>, a: Areas, top: nat, objs: set<int>, marks: set<int>)
    requires HeapOk(h, a, top, objs) && marks <= objs + {top}
    ensures a.Ok() && top < a.cap && a.tops < |h|
    ensures var L := LayoutOf(h, a, top, marks);
            && |L.h| == |h| && L.cap == a.cap && marks <= L.marks <= objs + {top}
            && (forall m, k :: m in marks && m != top && m <= k < m + h[m].Size() ==> L.h[k] == h[k])
            && (forall c :: top < c < |h| ==> L.h[c] == if Dropped(Ended(h, top), a, marks, c) then NULL else h[c])
            && (forall d :: a.tops <= d < |h| ==> h[d].Addr? && h[d].cell in L.marks)
    ensures forall o :: o in objs ==> HeapObjectOk(h, a.cap, top, objs, o)
  {
    hide HeapOk, HeapObjectOk, LayoutOf, Trimmed, Dropped;
    HeapBounds(h, a, top, objs);
    LayoutFrom(h, a, top, objs, marks);
    ObjectsKept(h, a, top, objs, marks);
    WordsTrimmed(h, a, top, marks);
  }

  lemma LayoutFrom(h: seq<Word>, a: Areas, top: nat, objs: set<int>, marks: set<int>)
    requires HeapOk(h, a, top, objs) && marks <= objs + {top} && top < |h|
    ensures var L, t := LayoutOf(h, a, top, marks), Trimmed(Ended(h, top), a, marks);
            && |L.h| == |h| && L.cap == a.cap && marks <= L.marks <= objs + {top}
            && (forall m, k :: m in marks && m <= k < m + t[m].Size() ==> L.h[k] == t[k])
            && (forall c :: top < c < |h| ==> L.h[c] == t[c])
            && (forall d :: a.tops <= d < |h| ==> t[d].Addr? && t[d].cell in L.marks)
  {
    hide HeapOk, WithTops, Dropped, Saved, Apart, Trimmed;
    HeapBounds(h, a, top, objs);
    MarkingHeap(h, a, top, objs);
    TrimmedOk(Ended(h, top), a, top + 1, objs + {top}, marks);
    TopMarks(LayoutOf(h, a, top, marks), Trimmed(Ended(h, top), a, marks), a.tops, marks, a.cap, top + 1);
    WithTopsAre(Trimmed(Ended(h, top), a, marks), a.tops, marks, a.cap, top + 1, objs + {top});
  }

  lemma WordsTrimmed(h: seq<Word>, a: Areas, top: nat, marks: set<int>)
    requires a.Ok() && top < a.cap && a.tops < |h|
    ensures var t := Trimmed(Ended(h, top), a, marks);
            && (forall c :: top < c < |h| ==> t[c] == if Dropped(Ended(h, top), a, marks, c) then NULL else h[c])
            && forall d :: a.roots <= d < |h| ==> t[d] == h[d]
  {
    hide Areas.EntryOf, Unneeded;
  }

  lemma ObjectsKept(h: seq<Word>, a: Areas, top: nat, objs: set<int>, marks: set<int>)
    requires HeapOk(h, a, top, objs)
    ensures var t := Trimmed(Ended(h, top), a, marks);
            forall m :: m in objs ==> 0 <= m < top && m + h[m].Size() <= top && t[m] == h[m] && h[m].Tag?
    ensures forall k :: 0 <= k < top ==> Trimmed(Ended(h, top), a, marks)[k] == h[k]
    ensures forall m :: m in objs ==> HeapObjectOk(h, a.cap, top, objs, m)
  {
    forall m | m in objs ensures 0 <= m < top && h[m].Tag? && m + h[m].Size() <= top {
      assert HeapObjectOk(h, a.cap, top, objs, m);
    }
    hide Areas.EntryOf;
    assert forall k :: 0 <= k < top ==> Trimmed(Ended(h, top), a, marks)[k] == h[k];
  }

  lemma MarkedWords(h: seq<Word>, a: Areas, top: nat, objs: set<int>, marks: set<int>, o: int)
    requires HeapOk(h, a, top, objs) && marks <= objs + {top} && o in objs && o in marks
    ensures var h' := LayoutOf(h, a, top, marks).h;
            && |h'| == |h| && 0 <= o < a.cap && h[o].Tag? && o + h[o].Size() <= top < |h|
            && forall k :: o <= k < o + h[o].Size() ==> h'[k] == h[k]
  {
    hide HeapOk, LayoutOf;
    LayoutIs(h, a, top, objs, marks);
    assert HeapObjectOk(h, a.cap, top, objs, o);
  }

  lemma MarkedPointers(h: seq<Word>, a: Areas, top: nat, objs: set<int>, marks: set<int>, o: int)
    requires HeapOk(h, a, top, objs) && Closed(Ended(h, top), top + 1, marks) && o in objs && o in marks
    ensures 0 <= o < top < |h| && h[o].Tag? && o + h[o].Size() <= top
    ensures forall c :: o < c <= o + h[o].LastSlot() && HeapPtr(h[c], a.cap) ==> h[c].cell in objs && h[c].cell in marks
  {
    var h' := Ended(h, top);
    assert HeapObjectOk(h, a.cap, top, objs, o);
    forall c | o < c <= o + h[o].LastSlot() && HeapPtr(h[c], a.cap) ensures h[c].cell in objs && h[c].cell in marks {
      assert AddressOk(h[c], a.cap, objs);
      assert HeapObjectOk(h, a.cap, top, objs, h[c].cell);
      assert h'[c] == Addr(h[c].cell) && h'[o] == h[o];
      assert Edge(h', top + 1, o, h[c].cell);
    }
  }

  /** A word that stays and leads to a marked object, if to any, leads to what it led to before. */
  lemma WordKept(h: seq<Word>, a: Areas, top: nat, objs: set<int>, marks: set<int>, L: Layout, mem: seq<Word>, c: int, depth: nat)
    requires HeapOk(h, a, top, objs) && marks <= objs + {top} && Closed(Ended(h, top), top + 1, marks)
    requires L == LayoutOf(h, a, top, marks) && L.Ok() && Compacted(L, mem)
    requires a.cap <= c < a.tops && !Dropped(Ended(h, top), a, marks, c) && (HeapPtr(h[c], a.cap) ==> h[c].cell in marks)
    ensures c < |mem| && Unfold(h, a.cap, h[c], depth) == Unfold(mem, a.cap, mem[c], depth)
  {
    HeapBounds(h, a, top, objs);
    MarkedSeen(h, a, top, objs, marks, h[c], depth);
    LayoutIs(h, a, top, objs, marks);
    hide HeapOk, Closed, LayoutOf, Dropped;
    assert L.h[c] == h[c] && mem[c] == L.Relocated(c);
    if HeapPtr(h[c], a.cap) {
      assert L.Slot(c);
      CompactionKeepsView(L, mem, L.Target(c), depth);
    }
  }

  /** After a collection every word outside the heap that is in no trail and no saved top leads to what it led to before. */
  lemma CollectionKeepsRoots(h: seq<Word>, a: Areas, top: nat, objs: set<int>, marks: set<int>, L: Layout, mem: seq<Word>, c: nat, depth: nat)
    requires HeapOk(h, a, top, objs) && marks <= objs + {top} && Closed(Ended(h, top), top + 1, marks)
    requires marks == Traced(Ended(h, top), a, top + 1)
    requires L == LayoutOf(h, a, top, marks) && L.Ok() && Compacted(L, mem)
    requires a.roots <= c < a.tops
    ensures c < |mem| && Unfold(h, a.cap, h[c], depth) == Unfold(mem, a.cap, mem[c], depth)
  {
    RootsMarked(h, a, top, objs);
    hide Closed, LayoutOf, Compacted, Layout.Ok, RootMarks, TrailMarks;
    WordKept(h, a, top, objs, marks, L, mem, c, depth);
  }

  /** A word of a trail is NULL if its entry is dropped, and else leads to what it led to before; dropped are the
      entries for cells that tracing did not mark. */
  lemma CollectionKeepsTrail(h: seq<Word>, a: Areas, top: nat, objs: set<int>, marks: set<int>, L: Layout, mem: seq<Word>, c: nat, depth: nat)
    requires HeapOk(h, a, top, objs) && marks <= objs + {top} && Closed(Ended(h, top), top + 1, marks)
    requires marks == Traced(Ended(h, top), a, top + 1) && TrailSafe(Ended(h, top), a, marks)
    requires L == LayoutOf(h, a, top, marks) && L.Ok() && Compacted(L, mem)
    requires a.cap <= c < a.roots
    ensures c < |mem|
    ensures if Dropped(Ended(h, top), a, marks, c) then mem[c] == Addr(-1)
            else Unfold(h, a.cap, h[c], depth) == Unfold(mem, a.cap, mem[c], depth)
  {
    LayoutIs(h, a, top, objs, marks);
    hide HeapOk, Closed, LayoutOf, Dropped, Layout.Ok, Traced;
    if Dropped(Ended(h, top), a, marks, c) {
      assert L.h[c] == NULL && mem[c] == L.Relocated(c);
    } else {
      WordKept(h, a, top, objs, marks, L, mem, c, depth);
    }
  }

  /** A saved top goes on separating the objects that were below it from the others. */
  lemma CollectionKeepsTops(h: seq<Word>, a: Areas, top: nat, objs: set<int>, marks: set<int>, L: Layout, mem: seq<Word>, c: nat)
    requires HeapOk(h, a, top, objs) && marks <= objs + {top}
    requires L == LayoutOf(h, a, top, marks) && L.Ok() && Compacted(L, mem)
    requires a.tops <= c < |h|
    ensures c < |mem| && mem[c] == Addr(L.NewAddress(h[c].cell))
    ensures forall m :: m in L.marks ==> (L.NewAddress(m) < mem[c].cell <==> m < h[c].cell)
  {
    LayoutIs(h, a, top, objs, marks);
    var o := h[c].cell;
    assert L.h[c] == h[c] && mem[c] == L.Relocated(c) && L.Slot(c) && L.Target(c) == o;
    SlotTarget(L, c);
    hide Layout.NewAddress, HeapOk, Layout.Ok, Compacted, LayoutOf, Layout.Slot, Layout.Relocated;
    forall m | m in L.marks ensures L.NewAddress(m) < L.NewAddress(o) <==> m < o {
      if m < o { NewImagesDisjoint(L, m, o); }
      if o < m { NewImagesDisjoint(L, o, m); }
    }
  }

  // ------------------------------------------------------------------
  // When the trails can be swept
  // ------------------------------------------------------------------

  /** The trails can be swept if and only if every variable on the binding trail is marked, and no trail entry
      that was passed over has had its cell marked by an entry whose turn came later, with its old value not
      marked.  The program does not check. */
  lemma SweepableExactly(h: seq<Word>, a: Areas, top: nat, objs: set<int>)
    requires HeapOk(h, a, top, objs)
    ensures a.Ok() && top < a.cap && a.tops < |h|
    ensures var h', final := Ended(h, top), Traced(Ended(h, top), a, top + 1);
            TrailSafe(h', a, final) <==>
            && (forall c :: a.cap <= c < a.objects ==> h[c].cell in final)
            && !SomeLate(h', a.cap, top + 1, a.objects, a.tags, RootMarks(h', a, top + 1), final)
  {
    hide HeapOk, TrailSafe, SomeLate, RootMarks, TrailMarks;
    TrailCells(h, a, top, objs);
    SafeExactly(Ended(h, top), a, top + 1, RootMarks(Ended(h, top), a, top + 1));
  }

  lemma TrailCells(h: seq<Word>, a: Areas, top: nat, objs: set<int>)
    requires HeapOk(h, a, top, objs)
    ensures a.Ok() && top < a.cap && a.tops < |h|
    ensures forall k :: a.cap <= k < a.tops ==> Ended(h, top)[k] == h[k] && (HeapPtr(h[k], a.cap) ==> h[k].cell < top + 1)
    ensures forall c :: a.cap <= c < a.objects ==> HeapPtr(h[c], a.cap)
  {
    HeapBounds(h, a, top, objs);
    forall k | a.cap <= k < a.tops && HeapPtr(h[k], a.cap) ensures h[k].cell < top + 1 {
      assert HeapObjectOk(h, a.cap, top, objs, h[k].cell);
    }
  }

  /** Three numbers at 0, 1 and 2, a register that leads to 2, and two trail entries: the newer has cell 0 and
      old value 1, the older cell 2 and old value 0.  When the turn of the newer entry comes its cell is not
      marked, so 1 is not traced; the older entry then has 0 marked; so sweeping threads 1, which is not marked. */
  lemma LateEntry(h: seq<Word>, n: nat)
    requires h == [Tag(Short, n, 0), Tag(Short, n, 0), Tag(Short, n, 0), Addr(-1), Addr(0), Addr(1), Addr(2), Addr(0), Addr(2), Addr(3)]
    ensures var a := Areas(4, 4, 8, 8, 9);
            && HeapOk(h, a, 3, {0, 1, 2}) && Traced(Ended(h, 3), a, 4) == {0, 2, 3}
            && !Dropped(Ended(h, 3), a, {0, 2, 3}, 5) && h[5] == Addr(1) && !TrailSafe(Ended(h, 3), a, {0, 2, 3})
  {
    var a, h' := Areas(4, 4, 8, 8, 9), Ended(h, 3);
    LateHeap(h, n);
    assert h' == h[3 := ZERO];
    NumbersOnly(h', 4);
    OneRoot(h', a);
    LateMarks(h');
    hide HeapOk, ReachableFrom, RootMarks, TrailMarks, TrailSafe, Dropped;
    LateWord(h', a);
  }

  lemma LateHeap(h: seq<Word>, n: nat)
    requires h == [Tag(Short, n, 0), Tag(Short, n, 0), Tag(Short, n, 0), Addr(-1), Addr(0), Addr(1), Addr(2), Addr(0), Addr(2), Addr(3)]
    ensures HeapOk(h, Areas(4, 4, 8, 8, 9), 3, {0, 1, 2})
  {
    assert forall o :: o in {0, 1, 2} ==> h[o] == Tag(Short, n, 0);
    assert forall o :: o in {0, 1, 2} ==> HeapObjectOk(h, 4, 3, {0, 1, 2}, o);
  }

  lemma LateWord(h: seq<Word>, a: Areas)
    requires |h| == 10 && a == Areas(4, 4, 8, 8, 9) && h[4] == Addr(0) && h[5] == Addr(1)
    ensures !Dropped(h, a, {0, 2, 3}, 5) && !TrailSafe(h, a, {0, 2, 3})
  {
    hide TrailSafe, Dropped, Areas.EntryOf;
    EntryDropped(h, a, {0, 2, 3}, 4);
    if TrailSafe(h, a, {0, 2, 3}) { EntryOfWords(h, a, {0, 2, 3}, 4); }
  }

  lemma LateMarks(h: seq<Word>)
    requires |h| == 10 && h[4] == Addr(0) && h[5] == Addr(1) && h[6] == Addr(2) && h[7] == Addr(0) && ReachableFrom(h, 4, 0) == {0}
    ensures TrailMarks(h, 4, 4, 4, 8, {2, 3}) == {0, 2, 3}
  {
    hide ReachableFrom;
    assert AfterEntry(h, 4, 4, 4, {2, 3}) == {2, 3};
    assert AfterEntry(h, 4, 4, 6, {2, 3}) == {0, 2, 3};
    hide AfterEntry;
    assert TrailMarks(h, 4, 4, 8, 8, {0, 2, 3}) == {0, 2, 3};
    assert TrailMarks(h, 4, 4, 6, 8, {2, 3}) == {0, 2, 3};
  }

  lemma OneRoot(h: seq<Word>, a: Areas)
    requires |h| == 10 && a.roots == 8 && a.tops == 9 && h[8] == Addr(2) && ReachableFrom(h, 4, 2) == {2}
    ensures RootMarks(h, a, 4) == {2, 3}
  {
    hide ReachableFrom;
    assert forall m :: Needed(h, 8, 4, 9, m) <==> m in ReachableFrom(h, 4, h[8].cell);
  }

  /** In a heap of numbers every object reaches only itself. */
  lemma NumbersOnly(h: seq<Word>, top: nat)
    requires top <= |h| && forall o :: 0 <= o < top ==> h[o].IsNumber()
    ensures forall o :: 0 <= o < top ==> ReachableFrom(h, top, o) == {o}
  {
    forall o | 0 <= o < top ensures ReachableFrom(h, top, o) == {o} {
      ReachableSelf(h, top, o);
      forall b | b in ReachableFrom(h, top, o) ensures b == o {
        var p :| IsPath(h, top, p) && p[0] == o && p[|p| - 1] == b;
        assert |p| > 1 ==> Edge(h, top, p[0], p[1]);
      }
    }
  }
}
