/** The saved tops of heap among the words outside it: a saved top may be the address of an object
    that nothing else leads to.  Such an object is replaced by a number of one word, which is marked
    and moved, so that the saved top can be threaded like any address.
 */
module SavedTops {
  import opened HeapWords
  import opened Compaction

  /** Short::Zero */
  const ZERO := Tag(Short, 0, 0)

  /** The objects of objs are in [0, top) and do not overlap. */
  ghost predicate Apart(h: seq<Word>, top: nat, objs: set<int>) {
    && top <= |h|
    && (forall o :: o in objs ==> 0 <= o < top && h[o].Tag? && o + h[o].Size() <= top)
    && forall m, n :: m in objs && n in objs && m < n ==> m + h[m].Size() <= n
  }

  /** The words from cell c on are addresses of objects; the last is the saved top of the heap, the
      others are those of the choice points. */
  ghost predicate Saved(h: seq<Word>, c: int, top: nat, objs: set<int>) {
    top <= c <= |h| && forall d :: c <= d < |h| ==> h[d].Addr? && h[d].cell in objs
  }

  ghost function Tops(h: seq<Word>, c: int): (s: set<int>)
    ensures forall o :: o in s <==> exists d :: c <= d < |h| && 0 <= d && h[d] == Addr(o)
  {
    set d | c <= d < |h| && 0 <= d && h[d].Addr? :: h[d].cell
  }

  ghost predicate Header(h: seq<Word>, o: int) { 0 <= o < |h| && h[o].Tag? }

  ghost predicate Between(k: int, a: int, b: int) { a <= k < b }

  /** The words of object o; of the one that only the saved top of the heap leads to, the first. */
  ghost function Words(h: seq<Word>, o: int, whole: bool): (s: set<int>)
    ensures forall k :: k in s <==> Header(h, o) && o <= k < o + (if whole then h[o].Size() else 1)
  {
    var end := o + if !Header(h, o) then 0 else if whole then h[o].Size() else 1;
    set k | o <= k < end && Between(k, o, end)
  }

  /** The cells overwritten from the saved top in cell c on, when marks are marked. */
  ghost function Cleared(h: seq<Word>, c: nat, marks: set<int>): set<int>
    decreases |h| - c
  {
    if c >= |h| then {}
    else
      var o := if h[c].Addr? then h[c].cell else -1;
      (if o in marks then {} else Words(h, o, c < |h| - 1)) + Cleared(h, c + 1, marks + {o})
  }

  ghost function Overlay(mem: seq<Word>, zeros: set<int>): (m: seq<Word>)
    ensures |m| == |mem| && forall k :: 0 <= k < |m| ==> m[k] == if k in zeros then ZERO else mem[k]
  {
    seq(|mem|, k requires 0 <= k < |mem| => if k in zeros then ZERO else mem[k])
  }

  /** What is overwritten is inside the unmarked objects that saved tops lead to. */
  lemma {:induction false} ClearedInside(h: seq<Word>, c: nat, marks: set<int>, top: nat, objs: set<int>, k: int)
    requires Saved(h, c, top, objs) && Apart(h, top, objs) && k in Cleared(h, c, marks)
    ensures exists o :: o in objs && o !in marks && o <= k < o + h[o].Size()
    decreases |h| - c
  {
    var o := h[c].cell;
    assert o in objs;
    if k in Cleared(h, c + 1, marks + {o}) {
      ClearedInside(h, c + 1, marks + {o}, top, objs, k);
    }
  }

  /** Nothing outside the heap is overwritten, and no word of a marked object. */
  lemma ClearedSpares(h: seq<Word>, c: nat, marks: set<int>, top: nat, objs: set<int>)
    requires Saved(h, c, top, objs) && Apart(h, top, objs) && marks <= objs
    ensures forall k :: k in Cleared(h, c, marks) ==> 0 <= k < top
    ensures forall m, k :: m in marks && m <= k < m + h[m].Size() ==> k !in Cleared(h, c, marks)
  {
    forall k | k in Cleared(h, c, marks) ensures 0 <= k < top { ClearedInside(h, c, marks, top, objs, k); }
    forall m, k | m in marks && m <= k < m + h[m].Size() ensures k !in Cleared(h, c, marks) {
      assert m in objs;
      if k in Cleared(h, c, marks) { ClearedInside(h, c, marks, top, objs, k); }
    }
  }

  /** A saved top that is not marked: its object is overwritten. */
  lemma {:induction false} TopCleared(h: seq<Word>, c: nat, marks: set<int>, top: nat, objs: set<int>, d: int)
    requires Saved(h, c, top, objs) && Apart(h, top, objs) && c <= d < |h| && h[d].cell !in marks
    ensures h[d].cell in Cleared(h, c, marks)
    decreases |h| - c
  {
    assert h[c].cell in objs && h[d].cell in objs;
    if h[d].cell != h[c].cell { TopCleared(h, c + 1, marks + {h[c].cell}, top, objs, d); }
  }

  /** The layout that compaction works on: marks from tracing, and the saved tops. */
  ghost function WithTops(h: seq<Word>, mid: nat, marks: set<int>, cap: nat, top: nat): Layout {
    Layout(Overlay(h, Cleared(h, mid, marks)), marks + Tops(h, mid), cap, top)
  }

  lemma WithTopsAre(h: seq<Word>, mid: nat, marks: set<int>, cap: nat, top: nat, objs: set<int>)
    requires 0 < top <= cap <= mid && Saved(h, mid, top, objs) && Apart(h, top, objs) && marks <= objs
    ensures var L := WithTops(h, mid, marks, cap, top);
            && |L.h| == |h| && L.marks <= objs && marks <= L.marks
            && (forall m :: m in L.marks ==> 0 <= m < top && L.h[m] == if m in marks then h[m] else Tag(Short, 0, 0))
            && (forall m, k :: m in marks && m <= k < m + h[m].Size() ==> L.h[k] == h[k])
            && (forall c :: top <= c < |h| ==> L.h[c] == h[c])
            && (forall d :: mid <= d < |h| ==> h[d].Addr? && h[d].cell in L.marks)
  {
    var L := WithTops(h, mid, marks, cap, top);
    ClearedSpares(h, mid, marks, top, objs);
    hide Cleared;
    forall m | m in L.marks ensures m in objs && L.h[m] == if m in marks then h[m] else ZERO {
      if m !in marks {
        var d :| mid <= d < |h| && h[d] == Addr(m);
        TopCleared(h, mid, marks, top, objs, d);
      }
    }
    forall d | mid <= d < |h| ensures h[d].Addr? && h[d].cell in L.marks {
      assert h[d] == Addr(h[d].cell);
    }
  }

  /** It is one that compaction accepts. */
  lemma WithTopsOk(h: seq<Word>, mid: nat, marks: set<int>, cap: nat, top: nat, objs: set<int>)
    requires 0 < top <= cap <= mid && Saved(h, mid, top, objs) && Apart(h, top, objs) && marks <= objs
    requires forall m, c :: m in marks && 1 <= c - m <= h[m].LastSlot() && HeapPtr(h[c], cap) ==> h[c].cell in marks
    requires forall c :: cap <= c < mid && HeapPtr(h[c], cap) ==> h[c].cell in marks
    ensures WithTops(h, mid, marks, cap, top).Ok()
  {
    var L := WithTops(h, mid, marks, cap, top);
    WithTopsAre(h, mid, marks, cap, top, objs);
    TopsApart(L, h, marks, top, objs);
    hide WithTops, Saved, Layout.NewAddress, Layout.Owner, Words, Cleared, Overlay, Tops;
    forall c | L.Slot(c) ensures L.Target(c) in L.marks {
      if c < cap { SlotHeld(L, h, marks, c); }
    }
  }

  lemma TopsApart(L: Layout, h: seq<Word>, marks: set<int>, top: nat, objs: set<int>)
    requires Apart(h, top, objs) && L.marks <= objs && |L.h| == |h|
    requires forall m :: m in L.marks ==> 0 <= m < top && L.h[m] == if m in marks then h[m] else ZERO
    ensures forall m :: m in L.marks ==> L.h[m].Tag? && h[m].Tag? && m + L.h[m].Size() <= top
    ensures forall m, n :: m in L.marks && n in L.marks && m < n ==> m + L.h[m].Size() <= n
  {
    forall m | m in L.marks ensures L.h[m].Tag? && h[m].Tag? && L.h[m].Size() <= h[m].Size() { assert m in objs; }
  }

  /** A pointer in an object is one in an object that tracing marked. */
  lemma SlotHeld(L: Layout, h: seq<Word>, marks: set<int>, c: int)
    requires L.Slot(c) && c < L.cap && |L.h| == |h| && forall m :: m in L.marks ==> 0 <= m < |h| && L.h[m] == if m in marks then h[m] else ZERO
    requires forall m, k :: m in marks && 0 <= m < |h| && h[m].Tag? && m <= k < m + h[m].Size() && k < |h| ==> L.h[k] == h[k]
    ensures var m := L.Owner(c); m in marks && 0 <= m <= c < |h| && h[m].Tag? && 1 <= c - m <= h[m].LastSlot() && L.h[c] == h[c]
  {
    var m := L.Owner(c);
    assert m in L.marks && L.h[m] != ZERO;
  }

  // ------------------------------------------------------------------
  // Threading the words outside the heap, while objects are still to be overwritten
  // ------------------------------------------------------------------

  /** The words from cap to c are threaded, and what zeros says is still to be overwritten is as it was. */
  ghost predicate Swept(L: Layout, h: seq<Word>, mem: seq<Word>, c: int, zeros: set<int>, ch: Chains) {
    && |mem| == |h| && Threaded(L, Overlay(mem, zeros), 0, SlotsIn(L, L.cap, c), {}, ch)
    && forall k :: k in zeros && 0 <= k < |mem| ==> mem[k] == h[k]
  }

  lemma WordAt(L: Layout, h: seq<Word>, mem: seq<Word>, c: int, zeros: set<int>, ch: Chains)
    requires L.Ok() && Untouched(L, L.cap, |h|, {}, {}) && Swept(L, h, mem, c, zeros, ch)
    requires L.cap <= c < |h| && L.h[c] == h[c] && c !in zeros
    ensures mem[c] == h[c]
    ensures HeapPtr(h[c], L.cap) ==> L.Slot(c) && L.Target(c) == h[c].cell && 0 <= h[c].cell < |h|
    ensures !HeapPtr(h[c], L.cap) ==> !L.Slot(c)
  {
    var m := Overlay(mem, zeros);
    hide Threaded, Untouched, Layout.Slot, Layout.Ok;
    assert {} + SlotsIn(L, L.cap, c) == SlotsIn(L, L.cap, c);
    UntouchedWord(L, m, L.cap, |h|, {}, {}, ch, c);
  }

  /** One pointer that is threaded, under the overlay. */
  lemma SweptStep(L: Layout, h: seq<Word>, mem: seq<Word>, c: int, zeros: set<int>, ch: Chains, mem': seq<Word>)
    requires L.Ok() && Untouched(L, L.cap, |h|, {}, {}) && Swept(L, h, mem, c, zeros, ch)
    requires L.cap <= c < |h| && L.h[c] == h[c] && c !in zeros && L.Slot(c) && L.Target(c) !in zeros
    requires 0 <= L.Target(c) < |mem| && mem' == mem[c := mem[L.Target(c)]][L.Target(c) := Addr(c)]
    ensures L.marks <= ch.Keys && L.Target(c) in ch
    ensures Swept(L, h, mem', c + 1, zeros, ch[L.Target(c) := [c] + ch[L.Target(c)]])
  {
    var m, m', t := Overlay(mem, zeros), Overlay(mem', zeros), L.Target(c);
    assert m' == m[c := m[t]][t := Addr(c)];
    assert SlotsIn(L, L.cap, c + 1) == SlotsIn(L, L.cap, c) + {c};
    SlotTarget(L, c);
    assert Live(L, c, 0) && L.marks <= ch.Keys;
    hide Threaded, Untouched, Layout.Slot, Layout.Ok, Live;
    ThreadStep(L, m, 0, SlotsIn(L, L.cap, c), {}, ch, c, m');
  }

  lemma SweptSkip(L: Layout, h: seq<Word>, mem: seq<Word>, c: int, zeros: set<int>, ch: Chains)
    requires Swept(L, h, mem, c, zeros, ch) && !L.Slot(c)
    ensures Swept(L, h, mem, c + 1, zeros, ch)
  {
    hide Threaded, Layout.Slot;
    assert SlotsIn(L, L.cap, c + 1) == SlotsIn(L, L.cap, c);
  }

  /** Thread the word c, if it is an address in the heap. */
  method SweepWord(mem: array<Word>, cap: nat, c: nat, ghost L: Layout, ghost h: seq<Word>, ghost zeros: set<int>, ghost ch0: Chains)
    returns (ghost ch: Chains)
    requires L.Ok() && cap == L.cap <= c < mem.Length && Untouched(L, cap, |h|, {}, {}) && Swept(L, h, mem[..], c, zeros, ch0)
    requires c < |h| && L.h[c] == h[c] && c !in zeros && (HeapPtr(h[c], cap) ==> h[c].cell !in zeros)
    modifies mem
    ensures Swept(L, h, mem[..], c + 1, zeros, ch)
  {
    hide Swept, Untouched, Layout.Slot, Layout.Ok, Layout.Target;
    ghost var was := mem[..];
    ch := ch0;
    WordAt(L, h, was, c, zeros, ch);
    if HeapPtr(mem[c], cap) {
      ThreadGC(mem, c);
      SweptStep(L, h, was, c, zeros, ch, mem[..]);
      ch := ch[L.Target(c) := [c] + ch[L.Target(c)]];
    } else {
      SweptSkip(L, h, was, c, zeros, ch);
    }
  }

  /** A root and what it leads to are not to be overwritten. */
  lemma RootSpared(L: Layout, h: seq<Word>, cap: nat, mid: nat, top: nat, objs: set<int>, marks: set<int>, c: nat)
    requires 0 < top <= cap <= c < |h| && cap <= mid && Saved(h, mid, top, objs) && Apart(h, top, objs) && marks <= objs
    requires L == WithTops(h, mid, marks, cap, top) && (HeapPtr(h[c], cap) ==> h[c].cell in marks)
    ensures L.cap == cap && L.h[c] == h[c] && c !in Cleared(h, mid, marks) && (HeapPtr(h[c], cap) ==> h[c].cell !in Cleared(h, mid, marks))
  {
    WithTopsAre(h, mid, marks, cap, top, objs);
    ClearedSpares(h, mid, marks, top, objs);
    if HeapPtr(h[c], cap) {
      var o := h[c].cell;
      assert o in objs && o <= o < o + h[o].Size();
    }
  }

  /** Thread the words from cell start on, up to the saved tops. */
  method SweepRoots(mem: array<Word>, cap: nat, start: nat, mid: nat, ghost top: nat, ghost L: Layout, ghost h: seq<Word>, ghost objs: set<int>,
                    ghost marks: set<int>, ghost ch0: Chains)
    returns (ghost ch: Chains)
    requires 0 < top <= cap <= start <= mid <= mem.Length && Saved(h, mid, top, objs) && Apart(h, top, objs) && marks <= objs
    requires L.Ok() && L == WithTops(h, mid, marks, cap, top) && Untouched(L, cap, |h|, {}, {}) && mem.Length == |h|
    requires forall c :: start <= c < mid && HeapPtr(h[c], cap) ==> h[c].cell in marks
    requires Swept(L, h, mem[..], start, Cleared(h, mid, marks), ch0)
    modifies mem
    ensures Swept(L, h, mem[..], mid, Cleared(h, mid, marks), ch)
  {
    hide Swept, Untouched, Layout.Ok, Saved, Apart, Cleared, WithTops;
    ch := ch0;
    for c := start to mid
      invariant Swept(L, h, mem[..], c, Cleared(h, mid, marks), ch)
    {
      RootSpared(L, h, cap, mid, top, objs, marks, c);
      ch := SweepWord(mem, cap, c, L, h, Cleared(h, mid, marks), ch);
    }
  }

  /** The saved top in cell c: what is left to overwrite when its object has been. */
  lemma TopStep(L: Layout, h: seq<Word>, mid: nat, top: nat, objs: set<int>, marks: set<int>, c: nat, mem: seq<Word>, mem': seq<Word>, ch: Chains)
    requires mid <= c < |h| && Saved(h, mid, top, objs) && Apart(h, top, objs) && marks <= objs
    requires Swept(L, h, mem, c, Cleared(h, c, marks), ch) && h[c].cell !in marks
    requires mem' == Overlay(mem, Words(h, h[c].cell, c < |h| - 1))
    ensures Swept(L, h, mem', c, Cleared(h, c + 1, marks + {h[c].cell}), ch)
  {
    var o := h[c].cell;
    var zeros, zeros', ws := Cleared(h, c, marks), Cleared(h, c + 1, marks + {o}), Words(h, o, c < |h| - 1);
    assert o in objs && Saved(h, c + 1, top, objs);
    ClearedSpares(h, c + 1, marks + {o}, top, objs);
    assert o in marks + {o};
    assert zeros == ws + zeros' && ws !! zeros';
    hide Threaded, Cleared, Words, Saved, Apart, SlotsIn;
    assert Overlay(mem', zeros') == Overlay(mem, zeros);
  }

  /** A saved top is the address of an object, and is not overwritten. */
  lemma TopWord(L: Layout, h: seq<Word>, cap: nat, mid: nat, top: nat, objs: set<int>, marks: set<int>, c: nat)
    requires 0 < top <= cap <= mid <= c < |h| && Saved(h, mid, top, objs) && Apart(h, top, objs) && marks <= objs
    requires L == WithTops(h, mid, marks, cap, top)
    ensures L.cap == cap && L.h[c] == h[c] && Saved(h, c, top, objs) && Saved(h, c + 1, top, objs)
    ensures h[c].Addr? && h[c].cell in objs && 0 <= h[c].cell < top && h[h[c].cell].Tag? && h[c].cell + h[h[c].cell].Size() <= top
  {
    WithTopsAre(h, mid, marks, cap, top, objs);
  }

  /** What is left to overwrite from the saved top in cell c on. */
  lemma TopSpared(h: seq<Word>, top: nat, objs: set<int>, marks: set<int>, c: nat)
    requires top <= c < |h| && Saved(h, c, top, objs) && Saved(h, c + 1, top, objs) && Apart(h, top, objs) && marks <= objs
    requires h[c].Addr? && h[c].cell in objs
    ensures c !in Cleared(h, c, marks) && c !in Cleared(h, c + 1, marks + {h[c].cell}) && h[c].cell !in Cleared(h, c + 1, marks + {h[c].cell})
    ensures h[c].cell in marks ==> Cleared(h, c, marks) == Cleared(h, c + 1, marks + {h[c].cell})
    ensures h[c].cell !in marks ==> h[c].cell in Cleared(h, c, marks)
  {
    var o := h[c].cell;
    ClearedSpares(h, c, marks, top, objs);
    ClearedSpares(h, c + 1, marks + {o}, top, objs);
    assert o in marks + {o} && o <= o < o + h[o].Size();
  }

  /** gc_sweep_choicepoints and the saved top of the heap: the object of the saved top in cell c is
      overwritten and marked if it is not marked, then the saved top is threaded. */
  method SweepTop(mem: array<Word>, cap: nat, mid: nat, c: nat, gcbits: GcBits, ghost top: nat, ghost L: Layout, ghost h: seq<Word>,
                  ghost objs: set<int>, ghost marks0: set<int>, ghost ch0: Chains)
    returns (ghost ch: Chains)
    requires 0 < top <= cap <= mid <= c < mem.Length && Saved(h, mid, top, objs) && Apart(h, top, objs) && marks0 <= objs
    requires L.Ok() && L == WithTops(h, mid, marks0, cap, top) && Untouched(L, cap, |h|, {}, {}) && mem.Length == |h|
    requires top <= BITS_PER_WORD * gcbits.words.Length && AllFit(gcbits.words[..]) && Marks(gcbits.words[..]) <= objs
    requires Swept(L, h, mem[..], c, Cleared(h, c, Marks(gcbits.words[..])), ch0)
    modifies mem, gcbits.words
    ensures AllFit(gcbits.words[..]) && Marks(gcbits.words[..]) == old(Marks(gcbits.words[..])) + {h[c].cell}
    ensures Swept(L, h, mem[..], c + 1, Cleared(h, c + 1, Marks(gcbits.words[..])), ch)
  {
    hide Swept, Untouched, Layout.Ok, Saved, Apart, Cleared, WithTops, AllFit, Marks, Words, Overlay;
    ghost var marks, was := Marks(gcbits.words[..]), mem[..];
    TopWord(L, h, cap, mid, top, objs, marks0, c);
    TopSpared(h, top, objs, marks, c);
    WordAt(L, h, was, c, Cleared(h, c, marks), ch0);
    var ptr := mem[c].cell;
    var marked := gcbits.IsSet(ptr);
    if !marked {
      PendingWord(L, h, was, c, Cleared(h, c, marks), ch0, ptr);
      var size := if c < mem.Length - 1 then mem[ptr].Size() else 1;
      ClearWords(mem, ptr, size);
      gcbits.SetBit(ptr);
      assert mem[..] == Overlay(was, Words(h, ptr, c < |h| - 1));
      TopStep(L, h, mid, top, objs, marks, c, was, mem[..], ch0);
    } else {
      assert marks == marks + {ptr};
    }
    ch := SweepWord(mem, cap, c, L, h, Cleared(h, c + 1, marks + {ptr}), ch0);
  }

  lemma PendingWord(L: Layout, h: seq<Word>, mem: seq<Word>, c: int, zeros: set<int>, ch: Chains, k: int)
    requires Swept(L, h, mem, c, zeros, ch) && k in zeros && 0 <= k < |mem|
    ensures |mem| == |h| && mem[k] == h[k]
  {
  }

  method ClearWords(mem: array<Word>, ptr: nat, size: nat)
    requires ptr + size <= mem.Length
    modifies mem
    ensures forall k :: 0 <= k < mem.Length ==> mem[k] == if ptr <= k < ptr + size then ZERO else old(mem[k])
  {
    for i := 0 to size
      invariant forall k :: 0 <= k < mem.Length ==> mem[k] == if ptr <= k < ptr + i then ZERO else old(mem[k])
    {
      mem[ptr + i] := ZERO;
    }
  }

  lemma TopsNext(h: seq<Word>, c: nat, marks: set<int>)
    requires c < |h| && h[c].Addr?
    ensures marks + {h[c].cell} + Tops(h, c + 1) == marks + Tops(h, c)
  {
    forall o ensures o in Tops(h, c) <==> o == h[c].cell || o in Tops(h, c + 1) {
      if o == h[c].cell { assert h[c] == Addr(o); }
    }
  }

  lemma AllSwept(L: Layout, h: seq<Word>, mem: seq<Word>, marks: set<int>, ch: Chains)
    requires Swept(L, h, mem, |h|, Cleared(h, |h|, marks), ch)
    ensures Threaded(L, mem, 0, SlotsIn(L, L.cap, |h|), {}, ch) && Tops(h, |h|) == {}
  {
    hide Threaded;
    assert Overlay(mem, {}) == mem;
  }

  /** Thread the saved tops: those of the choice points, and that of the heap.  Now the marked objects
      are those of the layout. */
  method SweepTops(mem: array<Word>, cap: nat, mid: nat, gcbits: GcBits, ghost top: nat, ghost L: Layout, ghost h: seq<Word>,
                   ghost objs: set<int>, ghost marks: set<int>, ghost ch0: Chains)
    returns (ghost ch: Chains)
    requires 0 < top <= cap <= mid < mem.Length && Saved(h, mid, top, objs) && Apart(h, top, objs) && marks <= objs
    requires L.Ok() && L == WithTops(h, mid, marks, cap, top) && Untouched(L, cap, |h|, {}, {}) && mem.Length == |h|
    requires top <= BITS_PER_WORD * gcbits.words.Length && AllFit(gcbits.words[..]) && Marks(gcbits.words[..]) == marks
    requires Swept(L, h, mem[..], mid, Cleared(h, mid, marks), ch0)
    modifies mem, gcbits.words
    ensures AllFit(gcbits.words[..]) && Marks(gcbits.words[..]) == L.marks
    ensures Threaded(L, mem[..], 0, SlotsIn(L, cap, |h|), {}, ch)
  {
    hide Swept, Untouched, Layout.Ok, Saved, Apart, Cleared, WithTops, AllFit, Marks, Words, Overlay, Tops, Threaded, SlotsIn;
    ch := ch0;
    TopMarks(L, h, mid, marks, cap, top);
    for c := mid to mem.Length - 1
      invariant AllFit(gcbits.words[..]) && Marks(gcbits.words[..]) <= objs && Marks(gcbits.words[..]) + Tops(h, c) == L.marks
      invariant Swept(L, h, mem[..], c, Cleared(h, c, Marks(gcbits.words[..])), ch)
    {
      TopWord(L, h, cap, mid, top, objs, marks, c);
      TopsNext(h, c, Marks(gcbits.words[..]));
      ch := SweepTop(mem, cap, mid, c, gcbits, top, L, h, objs, marks, ch);
    }
    var last := mem.Length - 1;
    TopWord(L, h, cap, mid, top, objs, marks, last);
    TopsNext(h, last, Marks(gcbits.words[..]));
    ch := SweepTop(mem, cap, mid, last, gcbits, top, L, h, objs, marks, ch);
    AllSwept(L, h, mem[..], Marks(gcbits.words[..]), ch);
  }

  lemma TopMarks(L: Layout, h: seq<Word>, mid: nat, marks: set<int>, cap: nat, top: nat)
    requires L == WithTops(h, mid, marks, cap, top)
    ensures L.cap == cap && L.top == top && |L.h| == |h| && L.marks == marks + Tops(h, mid)
  {
  }

  /** Before anything is threaded. */
  lemma NothingSwept(L: Layout, h: seq<Word>, mid: nat, marks: set<int>, cap: nat, top: nat) returns (ch: Chains)
    requires L.Ok() && L == WithTops(h, mid, marks, cap, top)
    ensures Swept(L, h, h, cap, Cleared(h, mid, marks), ch) && Untouched(L, cap, |h|, {}, {})
  {
    ch := map m | m in L.marks :: [];
    assert SlotsIn(L, cap, cap) == {};
    hide Cleared, Layout.NewAddress;
    assert Threaded(L, L.h, 0, {}, {}, ch);
  }
}
