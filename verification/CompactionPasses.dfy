/** The two passes of the compaction phase over the mark bits. */
module CompactionPasses {
  import opened HeapWords
  import opened Compaction

  // ------------------------------------------------------------------
  // Which cells are threaded, and which are final, when a pass reaches p
  // ------------------------------------------------------------------

  /** First pass at p: every pointer held below p (or outside the heap) is threaded, unless it
      points forward to an object already passed. */
  ghost function FwdThreaded(L: Layout, p: int): (s: set<int>)
    ensures forall c :: c in s <==> L.Slot(c) && L.Holder(c) < p && !(L.Holder(c) < L.Target(c) < p)
  {
    set c: int | 0 <= c < |L.h| && L.Slot(c) && L.Holder(c) < p && !(L.Holder(c) < L.Target(c) < p)
  }

  ghost function FwdDone(L: Layout, p: int): (s: set<int>)
    ensures forall c :: c in s <==> L.Slot(c) && L.Holder(c) < L.Target(c) < p
  {
    set c: int | 0 <= c < |L.h| && L.Slot(c) && L.Holder(c) < L.Target(c) < p
  }

  /** Second pass at p: only the pointers back to an object not yet passed are threaded. */
  ghost function BwdThreaded(L: Layout, p: int): (s: set<int>)
    ensures forall c :: c in s <==> L.Slot(c) && p <= L.Target(c) <= L.Holder(c)
  {
    set c: int | 0 <= c < |L.h| && L.Slot(c) && p <= L.Target(c) <= L.Holder(c)
  }

  ghost function BwdDone(L: Layout, p: int): (s: set<int>)
    ensures forall c :: c in s <==> L.Slot(c) && !(p <= L.Target(c) <= L.Holder(c))
  {
    set c: int | 0 <= c < |L.h| && L.Slot(c) && !(p <= L.Target(c) <= L.Holder(c))
  }

  /** The object that was at m has been moved, and its words are final. */
  ghost predicate MovedObject(L: Layout, mem: seq<Word>, m: int)
    requires 0 <= m < |L.h| && L.h[m].Tag? && m + L.h[m].Size() <= |L.h|
  {
    var a := L.NewAddress(m);
    && a + L.h[m].Size() <= |mem|
    && forall i :: a <= i < a + L.h[m].Size() ==> mem[i] == L.Relocated(m + (i - a))
  }

  /** The objects below p are where they belong. */
  ghost predicate Moved(L: Layout, mem: seq<Word>, p: int)
    requires L.Ok()
  {
    forall m :: m in L.marks && m < p ==> MovedObject(L, mem, m)
  }

  ghost predicate Forward(L: Layout, mem: seq<Word>, p: int, free: int, ch: Chains) {
    free == L.NewAddress(p) && Threaded(L, mem, 0, FwdThreaded(L, p), FwdDone(L, p), ch)
  }

  ghost predicate Backward(L: Layout, mem: seq<Word>, p: int, free: int, ch: Chains)
    requires L.Ok()
  {
    && free == L.NewAddress(p) && Threaded(L, mem, p, BwdThreaded(L, p), BwdDone(L, p), ch)
    && Moved(L, mem, p)
  }

  ghost predicate NoMarks(L: Layout, p: int, q: int) {
    forall m :: p <= m < q ==> m !in L.marks
  }

  /** Cells that hold no marked object change nothing. */
  lemma ForwardSkip(L: Layout, mem: seq<Word>, p: int, q: int, free: int, ch: Chains)
    requires L.Ok() && 0 <= p <= q && NoMarks(L, p, q) && Forward(L, mem, p, free, ch)
    ensures Forward(L, mem, q, free, ch)
  {
    NewAddressGap(L, p, q);
    forall c | L.Slot(c) ensures L.Target(c) in L.marks && (L.Holder(c) == -1 || L.Holder(c) in L.marks) {}
    assert FwdThreaded(L, p) == FwdThreaded(L, q);
    assert FwdDone(L, p) == FwdDone(L, q);
  }

  lemma ThreadedRaise(L: Layout, mem: seq<Word>, p: int, q: int, th: set<int>, done: set<int>, ch: Chains)
    requires L.Ok() && 0 <= p <= q && Threaded(L, mem, p, th, done, ch)
    requires forall c :: c in th ==> q <= L.Target(c) <= L.Holder(c)
    ensures Threaded(L, mem, q, th, done, ch)
  {
  }

  lemma BackwardSkip(L: Layout, mem: seq<Word>, p: int, q: int, free: int, ch: Chains)
    requires L.Ok() && 0 <= p <= q && NoMarks(L, p, q) && Backward(L, mem, p, free, ch)
    ensures Backward(L, mem, q, free, ch)
  {
    NewAddressGap(L, p, q);
    forall c | L.Slot(c) ensures L.Target(c) in L.marks {}
    assert BwdThreaded(L, p) == BwdThreaded(L, q);
    assert BwdDone(L, p) == BwdDone(L, q);
    ThreadedRaise(L, mem, p, q, BwdThreaded(L, p), BwdDone(L, p), ch);
  }

  /** Between the passes only the pointers to the same or a lower object are still threaded. */
  lemma Turn(L: Layout, mem: seq<Word>, p: int, free: int, ch: Chains)
    requires L.Ok() && L.top <= p && Forward(L, mem, p, free, ch)
    ensures Backward(L, mem, 0, 0, ch)
  {
    forall c | L.Slot(c)
      ensures L.Holder(c) < L.top && 0 <= L.Target(c) < L.top
    {}
    assert FwdThreaded(L, p) == BwdThreaded(L, 0);
    assert FwdDone(L, p) == BwdDone(L, 0);
  }

  /** When the second pass is over every word is final. */
  lemma BackwardEnd(L: Layout, mem: seq<Word>, p: int, free: int, ch: Chains)
    requires L.Ok() && L.top <= p && Backward(L, mem, p, free, ch)
    ensures free == L.NewAddress(L.top) && |mem| == |L.h|
    ensures forall m :: m in L.marks ==> MovedObject(L, mem, m)
    ensures forall c :: L.cap <= c < |L.h| ==> mem[c] == L.Relocated(c)
  {
    NewAddressGap(L, L.top, p);
    forall c | L.cap <= c < |L.h| ensures mem[c] == L.Relocated(c) {
      assert Live(L, c, p) && c !in L.marks;
      if L.Slot(c) { SlotTarget(L, c); }
    }
  }

  // ------------------------------------------------------------------
  // One object
  // ------------------------------------------------------------------

  lemma HeaderChain(L: Layout, mem: seq<Word>, lo: int, th: set<int>, done: set<int>, ch: Chains, m: int)
    requires L.Ok() && Threaded(L, mem, lo, th, done, ch) && m in L.marks && m >= lo
    ensures 0 <= m < |L.h| == |mem| && L.h[m].Tag? && m + L.h[m].Size() <= L.top <= L.cap <= |mem|
    ensures m in ch && Chain(mem, m, ch[m], L.h[m])
  {
  }

  /** Unthread the object at m to its new address. */
  method Unthread(mem: array<Word>, m: nat, free: nat, ghost L: Layout, ghost lo: int,
                  ghost th: set<int>, ghost done: set<int>, ghost ch: Chains)
    requires L.Ok() && Threaded(L, mem[..], lo, th, done, ch) && m in L.marks && m >= lo
    requires free == L.NewAddress(m)
    modifies mem
    ensures m in ch && Threaded(L, mem[..], lo, th - Cells(ch[m]), done + Cells(ch[m]), ch[m := []])
    ensures m < mem.Length == |L.h| && mem[m] == L.h[m] && Unthreads(L, old(mem[..]), mem[..], m, ch[m])
  {
    ghost var was := mem[..];
    HeaderChain(L, was, lo, th, done, ch, m);
    UpdateGC(mem, m, free, ch[m], L.h[m]);
    UnthreadStep(L, was, lo, th, done, ch, m, mem[..]);
  }

  lemma ObjectSlots(L: Layout, p: int, c: int)
    requires L.Ok() && p in L.marks
    ensures c in SlotsIn(L, p + 1, p + 1 + L.h[p].LastSlot()) <==> L.Slot(c) && L.Holder(c) == p
  {
    if p < c < p + 1 + L.h[p].LastSlot() { OwnerInside(L, p, c); }
  }

  lemma ForwardSets(L: Layout, mem: seq<Word>, p: int, ch: Chains)
    requires L.Ok() && p in L.marks
    requires Threaded(L, mem, 0, FwdThreaded(L, p), FwdDone(L, p), ch)
    ensures p in ch && 0 <= p < |L.h| && L.h[p].Tag?
    ensures FwdThreaded(L, p) - Cells(ch[p]) + SlotsIn(L, p + 1, p + 1 + L.h[p].LastSlot()) == FwdThreaded(L, p + 1)
    ensures FwdDone(L, p) + Cells(ch[p]) == FwdDone(L, p + 1)
  {
    hide Layout.Slot, Layout.Owner, ChainsOk, WordsOk, Word.LastSlot;
    forall c ensures c in SlotsIn(L, p + 1, p + 1 + L.h[p].LastSlot()) <==> L.Slot(c) && L.Holder(c) == p {
      ObjectSlots(L, p, c);
    }
    forall c ensures c in ch[p] <==> c in FwdThreaded(L, p) && L.Target(c) == p {}
  }

  lemma ObjectUntouched(L: Layout, p: int, th: set<int>, done: set<int>)
    requires L.Ok() && p in L.marks
    requires forall c :: c in th || c in done ==> L.Slot(c) && L.Holder(c) < p
    ensures Untouched(L, p + 1, p + 1 + L.h[p].LastSlot(), th, done)
  {
    forall c | p + 1 <= c < p + 1 + L.h[p].LastSlot()
      ensures L.Owner(c) == p && c !in L.marks && c < L.cap
    {
      OwnerInside(L, p, c);
    }
  }

  lemma ForwardUntouched(L: Layout, mem: seq<Word>, p: int, ch: Chains)
    requires L.Ok() && p in L.marks
    requires Threaded(L, mem, 0, FwdThreaded(L, p), FwdDone(L, p), ch)
    ensures p in ch && 0 <= p < |L.h| && L.h[p].Tag?
    ensures Untouched(L, p + 1, p + 1 + L.h[p].LastSlot(), FwdThreaded(L, p) - Cells(ch[p]), FwdDone(L, p) + Cells(ch[p]))
  {
    assert forall c :: c in ch[p] <==> c in FwdThreaded(L, p) && L.Target(c) == p;
    ObjectUntouched(L, p, FwdThreaded(L, p) - Cells(ch[p]), FwdDone(L, p) + Cells(ch[p]));
  }

  lemma NoSlots(L: Layout, p: int, th: set<int>)
    ensures th + SlotsIn(L, p, p) == th
  {
  }

  /** Thread the pointers of the object at ptr: for an extended variable its last word is left
      alone, for a number or a string all words are. */
  method ThreadObject(mem: array<Word>, cap: nat, ptr: nat, ghost L: Layout,
                      ghost th: set<int>, ghost done: set<int>, ghost ch0: Chains)
    returns (size: nat, ghost ch: Chains)
    requires L.Ok() && cap == L.cap && ptr in L.marks && ptr < mem.Length == |L.h| && mem[ptr] == L.h[ptr]
    requires Threaded(L, mem[..], 0, th, done, ch0)
    requires Untouched(L, ptr + 1, ptr + 1 + L.h[ptr].LastSlot(), th, done)
    modifies mem
    ensures size == L.h[ptr].Size()
    ensures Threaded(L, mem[..], 0, th + SlotsIn(L, ptr + 1, ptr + 1 + L.h[ptr].LastSlot()), done, ch)
  {
    hide Threaded, SlotsIn, Untouched;
    ch := ch0;
    size := mem[ptr].Size();
    if mem[ptr].IsVariableExtended() {
      ch := ThreadWords(mem, cap, ptr + 1, ptr + size - 1, L, th, done, ch);
    } else if !(mem[ptr].IsNumber() || mem[ptr].IsString()) {
      ch := ThreadWords(mem, cap, ptr + 1, ptr + size, L, th, done, ch);
    } else {
      NoSlots(L, ptr + 1, th);
    }
  }

  /** First pass, one object: unthread it to its new address, then thread its pointers. */
  method ForwardObject(mem: array<Word>, cap: nat, ptr: nat, next_free: nat, ghost L: Layout, ghost ch0: Chains)
    returns (size: nat, ghost ch: Chains)
    requires L.Ok() && cap == L.cap && ptr in L.marks && Forward(L, mem[..], ptr, next_free, ch0)
    modifies mem
    ensures Forward(L, mem[..], ptr + 1, next_free + size, ch)
  {
    hide Threaded, FwdThreaded, FwdDone, SlotsIn, Untouched, Cells, Layout.Ok, Layout.NewAddress, Word.LastSlot, Word.Size;
    ghost var th, done := FwdThreaded(L, ptr), FwdDone(L, ptr);
    ForwardSets(L, mem[..], ptr, ch0);
    ForwardUntouched(L, mem[..], ptr, ch0);
    SlidesDown(L, ptr);
    Unthread(mem, ptr, next_free, L, 0, th, done, ch0);
    size, ch := ThreadObject(mem, cap, ptr, L, th - Cells(ch0[ptr]), done + Cells(ch0[ptr]), ch0[ptr := []]);
  }

  /** The memory h with the n words at src copied down to dest. */
  function Slid(h: seq<Word>, dest: nat, src: nat, n: nat): (r: seq<Word>)
    requires dest <= src && src + n <= |h|
    ensures |r| == |h|
    ensures forall i :: dest <= i < dest + n ==> r[i] == h[i + (src - dest)]
    ensures forall i :: 0 <= i < dest || dest + n <= i < |h| ==> r[i] == h[i]
  {
    h[..dest] + h[src..src + n] + h[dest + n..]
  }

  lemma SlidStep(h: seq<Word>, dest: nat, src: nat, k: nat)
    requires dest <= src && src + k < |h|
    ensures Slid(h, dest, src, k)[src + k] == h[src + k]
    ensures Slid(h, dest, src, k + 1) == Slid(h, dest, src, k)[dest + k := h[src + k]]
  {
  }

  /** memcpy of n words from src down to dest. */
  method MoveWords(mem: array<Word>, dest: nat, src: nat, n: nat)
    requires dest <= src && src + n <= mem.Length
    modifies mem
    ensures mem[..] == Slid(old(mem[..]), dest, src, n)
  {
    hide *;
    ghost var h := mem[..];
    var k := 0;
    assert mem[..] == Slid(h, dest, src, 0) by { SlidNone(h, dest, src); }
    while k < n
      invariant 0 <= k <= n && mem.Length == |h|
      invariant mem[..] == Slid(h, dest, src, k)
    {
      SlidStep(h, dest, src, k);
      ghost var was := mem[..];
      mem[dest + k] := mem[src + k];
      assert mem[..] == was[dest + k := was[src + k]];
      k := k + 1;
    }
  }

  lemma SlidNone(h: seq<Word>, dest: nat, src: nat)
    requires dest <= src <= |h|
    ensures Slid(h, dest, src, 0) == h
  {
  }

  /** mem' is mem with the words of the object at p copied to its new address. */
  ghost predicate Copies(L: Layout, mem: seq<Word>, mem': seq<Word>, p: int)
    requires L.Ok() && p in L.marks
  {
    var a, n := L.NewAddress(p), L.h[p].Size();
    |mem| == |L.h| && a <= p && p + n <= |mem| && mem' == Slid(mem, a, p, n)
  }

  /** After unthreading p in the second pass every word of p is final. */
  lemma ObjectFinal(L: Layout, mem: seq<Word>, p: int, ch: Chains, c: int)
    requires L.Ok() && p in L.marks && p <= c < p + L.h[p].Size()
    requires Threaded(L, mem, p, BwdThreaded(L, p + 1), BwdDone(L, p + 1), ch)
    requires mem[p] == L.h[p]
    ensures mem[c] == L.Relocated(c)
  {
    OwnerInside(L, p, c);
    if c == p {
      if L.Slot(p) { SlotIsNoHeader(L, p); }
    }
  }

  lemma BackwardSets(L: Layout, mem: seq<Word>, p: int, ch: Chains)
    requires L.Ok() && p in L.marks
    requires Threaded(L, mem, p, BwdThreaded(L, p), BwdDone(L, p), ch)
    ensures p in ch
    ensures BwdThreaded(L, p) - Cells(ch[p]) == BwdThreaded(L, p + 1)
    ensures BwdDone(L, p) + Cells(ch[p]) == BwdDone(L, p + 1)
  {
    assert forall c :: c in ch[p] <==> c in BwdThreaded(L, p) && L.Target(c) == p;
  }

  lemma LiveAbove(L: Layout, p: int, c: int)
    requires L.Ok() && p in L.marks && Live(L, c, p + 1)
    ensures c >= p + L.h[p].Size() && Live(L, c, p)
  {
  }

  /** Copying the object at p down leaves everything above it and outside the heap as it was. */
  lemma CopyKeepsThreads(L: Layout, mem: seq<Word>, mem': seq<Word>, p: int, th: set<int>, done: set<int>, ch: Chains)
    requires L.Ok() && p in L.marks && Threaded(L, mem, p + 1, th, done, ch) && Copies(L, mem, mem', p)
    ensures Threaded(L, mem', p + 1, th, done, ch)
  {
    forall c | Live(L, c, p + 1) ensures mem'[c] == mem[c] { CopyKeepsLive(L, mem, mem', p, c); }
    forall m | m in L.marks && m >= p + 1
      ensures 0 <= m < |L.h| && Chain(mem', m, ch[m], L.h[m])
    {
      CopyKeepsChain(L, mem, mem', p, th, done, ch, m);
    }
  }

  lemma CopyKeepsLive(L: Layout, mem: seq<Word>, mem': seq<Word>, p: int, c: int)
    requires L.Ok() && p in L.marks && Copies(L, mem, mem', p) && Live(L, c, p + 1)
    ensures |mem'| == |mem| == |L.h| && mem'[c] == mem[c]
  {
    LiveAbove(L, p, c);
    SlidesDown(L, p);
  }

  lemma LiveChain(L: Layout, mem: seq<Word>, lo: int, th: set<int>, done: set<int>, ch: Chains, m: int)
    requires L.Ok() && Threaded(L, mem, lo, th, done, ch) && m in L.marks && m >= lo
    ensures m in ch && 0 <= m < |L.h| == |mem| && Chain(mem, m, ch[m], L.h[m])
    ensures Live(L, m, lo) && forall c :: c in ch[m] ==> Live(L, c, lo)
  {
    hide ChainsOk, Chain, WordsOk, Layout.Owner;
    HeaderChain(L, mem, lo, th, done, ch, m);
    OwnerInside(L, m, m);
    forall c | c in ch[m] ensures Live(L, c, lo) {
      assert c in th;
    }
  }

  lemma CopyKeepsChain(L: Layout, mem: seq<Word>, mem': seq<Word>, p: int, th: set<int>, done: set<int>, ch: Chains, m: int)
    requires L.Ok() && p in L.marks && Copies(L, mem, mem', p) && m in L.marks && m >= p + 1
    requires Threaded(L, mem, p + 1, th, done, ch)
    ensures m in ch && 0 <= m < |L.h| && Chain(mem', m, ch[m], L.h[m])
  {
    hide *;
    LiveChain(L, mem, p + 1, th, done, ch, m);
    CopyKeepsLive(L, mem, mem', p, m);
    forall c | c in ch[m] && 0 <= c < |mem| ensures |mem'| == |mem| && mem'[c] == mem[c] {
      CopyKeepsLive(L, mem, mem', p, c);
    }
    ChainFrame(mem, mem', m, ch[m], L.h[m]);
  }

  lemma CopyMoves(L: Layout, mem: seq<Word>, mem': seq<Word>, p: int)
    requires L.Ok() && p in L.marks && Copies(L, mem, mem', p) && Moved(L, mem, p)
    requires forall c :: p <= c < p + L.h[p].Size() ==> mem[c] == L.Relocated(c)
    ensures Moved(L, mem', p + 1)
  {
    hide MovedObject, Copies, Layout.Relocated;
    forall m | m in L.marks && m < p + 1 ensures MovedObject(L, mem', m) {
      if m < p { CopyKeepsMoved(L, mem, mem', p, m); } else { CopyMovesObject(L, mem, mem', p); }
    }
  }

  lemma CopyMovesObject(L: Layout, mem: seq<Word>, mem': seq<Word>, p: int)
    requires L.Ok() && p in L.marks && Copies(L, mem, mem', p)
    requires forall c :: p <= c < p + L.h[p].Size() ==> mem[c] == L.Relocated(c)
    ensures MovedObject(L, mem', p)
  {
    hide Layout.Relocated, Layout.NewAddress;
    var a := L.NewAddress(p);
    forall i | a <= i < a + L.h[p].Size() ensures mem'[i] == L.Relocated(p + (i - a)) {
      assert mem'[i] == mem[p + (i - a)];
    }
  }

  lemma CopyKeepsMoved(L: Layout, mem: seq<Word>, mem': seq<Word>, p: int, m: int)
    requires L.Ok() && p in L.marks && Copies(L, mem, mem', p) && m in L.marks && m < p && MovedObject(L, mem, m)
    ensures MovedObject(L, mem', m)
  {
    NewImagesDisjoint(L, m, p);
  }

  /** The chain step of the second pass keeps the objects that have been moved. */
  lemma UnthreadKeepsMoved(L: Layout, mem: seq<Word>, mem': seq<Word>, p: int, cs: seq<int>)
    requires L.Ok() && p in L.marks && Moved(L, mem, p) && Unthreads(L, mem, mem', p, cs)
    requires forall c :: c in cs ==> Live(L, c, p)
    ensures Moved(L, mem', p)
  {
    hide Layout.NewAddress, Unthreads, Live, MovedObject;
    forall m | m in L.marks && m < p ensures MovedObject(L, mem', m) {
      UnthreadKeepsImage(L, mem, mem', p, cs, m);
    }
  }

  lemma UnthreadKeepsImage(L: Layout, mem: seq<Word>, mem': seq<Word>, p: int, cs: seq<int>, m: int)
    requires L.Ok() && p in L.marks && m in L.marks && m < p && MovedObject(L, mem, m) && Unthreads(L, mem, mem', p, cs)
    requires forall c :: c in cs ==> Live(L, c, p)
    ensures MovedObject(L, mem', m)
  {
    hide Layout.NewAddress, Layout.Relocated, Word.Size;
    NewImagesDisjoint(L, m, p);
    SlidesDown(L, p);
    var a := L.NewAddress(m);
    forall i | a <= i < a + L.h[m].Size() ensures mem'[i] == mem[i] {
      assert i < p && i !in cs;
    }
  }

  /** The facts about one object of the second pass once it is unthreaded (mem) and moved (mem'). */
  lemma BackwardStep(L: Layout, mem: seq<Word>, mem': seq<Word>, p: int, ch: Chains)
    requires L.Ok() && p in L.marks && Moved(L, mem, p) && Copies(L, mem, mem', p) && mem[p] == L.h[p]
    requires Threaded(L, mem, p, BwdThreaded(L, p + 1), BwdDone(L, p + 1), ch)
    ensures Backward(L, mem', p + 1, L.NewAddress(p) + L.h[p].Size(), ch)
  {
    SlidesDown(L, p);
    ThreadedRaise(L, mem, p, p + 1, BwdThreaded(L, p + 1), BwdDone(L, p + 1), ch);
    CopyKeepsThreads(L, mem, mem', p, BwdThreaded(L, p + 1), BwdDone(L, p + 1), ch);
    forall c | p <= c < p + L.h[p].Size() ensures mem[c] == L.Relocated(c) {
      ObjectFinal(L, mem, p, ch, c);
    }
    CopyMoves(L, mem, mem', p);
  }

  /** Second pass, one object: unthread it to its new address, then move it there. */
  method BackwardObject(mem: array<Word>, ptr: nat, next_free: nat, ghost L: Layout, ghost ch0: Chains)
    returns (size: nat, ghost ch: Chains)
    requires L.Ok() && ptr in L.marks && Backward(L, mem[..], ptr, next_free, ch0)
    modifies mem
    ensures Backward(L, mem[..], ptr + 1, next_free + size, ch)
  {
    hide Threaded, BwdThreaded, BwdDone, Cells, Layout.NewAddress, Word.Size, Moved, Unthreads;
    ghost var was := mem[..];
    BackwardSets(L, was, ptr, ch0);
    BackwardCells(L, was, ptr, ch0);
    SlidesDown(L, ptr);
    Unthread(mem, ptr, next_free, L, ptr, BwdThreaded(L, ptr), BwdDone(L, ptr), ch0);
    UnthreadKeepsMoved(L, was, mem[..], ptr, ch0[ptr]);
    ch := ch0[ptr := []];
    size := mem[ptr].Size();
    ghost var unthreaded := mem[..];
    MoveWords(mem, next_free, ptr, size);
    BackwardStep(L, unthreaded, mem[..], ptr, ch);
  }

  lemma BackwardCells(L: Layout, mem: seq<Word>, p: int, ch: Chains)
    requires L.Ok() && p in L.marks && Threaded(L, mem, p, BwdThreaded(L, p), BwdDone(L, p), ch)
    ensures p in ch && forall c :: c in ch[p] ==> Live(L, c, p)
  {
    assert forall c :: c in ch[p] <==> c in BwdThreaded(L, p) && L.Target(c) == p;
  }

  // ------------------------------------------------------------------
  // Scanning the mark bits
  // ------------------------------------------------------------------

  /** From word w on the bits are the marks; word max is the sentinel. */
  ghost predicate BitsFrom(L: Layout, ws: seq<nat>, w: int, max: int) {
    && 0 <= w <= max < |ws| && max == 1 + L.top / BITS_PER_WORD && ws[max] == 1 && AllFit(ws)
    && forall v, k :: w <= v < max && 0 <= k < BITS_PER_WORD ==>
         (BitAt(ws[v], k) <==> BITS_PER_WORD * v + k in L.marks)
  }

  /** The bits left in x are the marks from pos up to end. */
  ghost predicate WordScan(L: Layout, x: nat, pos: int, end: int) {
    && pos <= end && Fits(x, end - pos)
    && forall k :: 0 <= k < end - pos ==> (BitAt(x, k) <==> pos + k in L.marks)
  }

  lemma ScanStart(L: Layout, ws: seq<nat>, w: int, max: int)
    requires BitsFrom(L, ws, w, max) && w < max
    ensures WordScan(L, ws[w], BITS_PER_WORD * w, BITS_PER_WORD * w + BITS_PER_WORD)
  {
  }

  lemma ScanShift(L: Layout, x: nat, pos: int, end: int)
    requires WordScan(L, x, pos, end) && x != 0
    ensures pos < end && (x % 2 == 1 <==> pos in L.marks) && WordScan(L, x / 2, pos + 1, end)
  {
    assert BitAt(x, 0) <==> pos + 0 in L.marks;
    forall k | 0 <= k < end - (pos + 1)
      ensures BitAt(x / 2, k) <==> pos + 1 + k in L.marks
    {
      assert BitAt(x, k + 1) <==> pos + (k + 1) in L.marks;
    }
  }

  lemma ScanZero(L: Layout, pos: int, end: int)
    requires WordScan(L, 0, pos, end)
    ensures NoMarks(L, pos, end)
  {
    forall m | pos <= m < end ensures m !in L.marks {
      ZeroHasNoBits(m - pos);
      assert BitAt(0, m - pos) <==> pos + (m - pos) in L.marks;
    }
  }

  lemma ZeroWord(L: Layout, ws: seq<nat>, w: int, max: int)
    requires BitsFrom(L, ws, w, max) && ws[w] == 0
    ensures w < max && NoMarks(L, BITS_PER_WORD * w, BITS_PER_WORD * (w + 1))
  {
    ScanStart(L, ws, w, max);
    ScanZero(L, BITS_PER_WORD * w, BITS_PER_WORD * w + BITS_PER_WORD);
  }

  /** The marks in the bit array, with the sentinel set. */
  lemma SentinelSet(L: Layout, ws: seq<nat>, max: nat)
    requires L.Ok() && max == 1 + L.top / BITS_PER_WORD < |ws| && AllFit(ws) && Marks(ws) == L.marks
    ensures BitsFrom(L, ws[max := 1], 0, max)
    ensures forall v :: max <= v < |ws| ==> ws[v] == 0
  {
    assert Fits(1, BITS_PER_WORD) by { ZeroHasNoBits(BITS_PER_WORD - 1); }
    forall v, k | 0 <= v < max && 0 <= k < BITS_PER_WORD
      ensures BitAt(ws[v], k) <==> BITS_PER_WORD * v + k in L.marks
    {
      var i := BITS_PER_WORD * v + k;
      assert i / BITS_PER_WORD == v && i % BITS_PER_WORD == k;
      assert Has(ws, i) <==> i in L.marks;
    }
    forall v | max <= v < |ws| ensures ws[v] == 0 {
      if ws[v] != 0 {
        var k := NonzeroHasBit(ws[v], BITS_PER_WORD);
        var i := BITS_PER_WORD * v + k;
        assert i / BITS_PER_WORD == v && i % BITS_PER_WORD == k;
        assert Has(ws, i);
      }
    }
  }

  /** The inner loop of the first pass: the objects marked in the word x of the bit array. */
  method ForwardWord(mem: array<Word>, cap: nat, x0: nat, offset: nat, free0: nat, ghost L: Layout, ghost ch0: Chains)
    returns (next_free: nat, ghost ch: Chains)
    requires L.Ok() && cap == L.cap && WordScan(L, x0, offset, offset + BITS_PER_WORD)
    requires Forward(L, mem[..], offset, free0, ch0)
    modifies mem
    ensures Forward(L, mem[..], offset + BITS_PER_WORD, next_free, ch)
  {
    hide *;
    var x, bitoffset := x0, offset;
    next_free, ch := free0, ch0;
    while x != 0
      invariant L.Ok() && cap == L.cap
      invariant offset <= bitoffset
      invariant WordScan(L, x, bitoffset, offset + BITS_PER_WORD)
      invariant Forward(L, mem[..], bitoffset, next_free, ch)
      decreases x
    {
      ScanShift(L, x, bitoffset, offset + BITS_PER_WORD);
      if x % 2 == 1 {
        var size;
        size, ch := ForwardObject(mem, cap, bitoffset, next_free, L, ch);
        next_free := next_free + size;
      } else {
        OneUnmarked(L, bitoffset);
        ForwardSkip(L, mem[..], bitoffset, bitoffset + 1, next_free, ch);
      }
      x := x / 2;
      bitoffset := bitoffset + 1;
    }
    ScanZero(L, bitoffset, offset + BITS_PER_WORD);
    ScanBound(L, x, bitoffset, offset + BITS_PER_WORD);
    ForwardSkip(L, mem[..], bitoffset, offset + BITS_PER_WORD, next_free, ch);
  }

  lemma OneUnmarked(L: Layout, p: int)
    requires p !in L.marks
    ensures NoMarks(L, p, p + 1)
  {
  }

  lemma ScanBound(L: Layout, x: nat, pos: int, end: int)
    requires WordScan(L, x, pos, end)
    ensures pos <= end
  {
  }

  /** The inner loop of the second pass. */
  method BackwardWord(mem: array<Word>, x0: nat, offset: nat, free0: nat, ghost L: Layout, ghost ch0: Chains)
    returns (next_free: nat, ghost ch: Chains)
    requires L.Ok() && WordScan(L, x0, offset, offset + BITS_PER_WORD)
    requires Backward(L, mem[..], offset, free0, ch0)
    modifies mem
    ensures Backward(L, mem[..], offset + BITS_PER_WORD, next_free, ch)
  {
    hide *;
    var x, bitoffset := x0, offset;
    next_free, ch := free0, ch0;
    while x != 0
      invariant L.Ok()
      invariant offset <= bitoffset
      invariant WordScan(L, x, bitoffset, offset + BITS_PER_WORD)
      invariant Backward(L, mem[..], bitoffset, next_free, ch)
      decreases x
    {
      ScanShift(L, x, bitoffset, offset + BITS_PER_WORD);
      if x % 2 == 1 {
        var size;
        size, ch := BackwardObject(mem, bitoffset, next_free, L, ch);
        next_free := next_free + size;
      } else {
        OneUnmarked(L, bitoffset);
        BackwardSkip(L, mem[..], bitoffset, bitoffset + 1, next_free, ch);
      }
      x := x / 2;
      bitoffset := bitoffset + 1;
    }
    ScanZero(L, bitoffset, offset + BITS_PER_WORD);
    ScanBound(L, x, bitoffset, offset + BITS_PER_WORD);
    BackwardSkip(L, mem[..], bitoffset, offset + BITS_PER_WORD, next_free, ch);
  }

  /** update_forward_pointers.  The heap must leave room for the sentinel word. */
  method UpdateForwardPointers(mem: array<Word>, cap: nat, top: nat, gcbits: GcBits, ghost L: Layout, ghost ch0: Chains)
    returns (ghost p: int, ghost next_free: nat, ghost ch: Chains)
    requires L.Ok() && cap == L.cap && top == L.top
    requires 1 + top / BITS_PER_WORD < gcbits.words.Length
    requires AllFit(gcbits.words[..]) && Marks(gcbits.words[..]) == L.marks
    requires Forward(L, mem[..], 0, 0, ch0)
    modifies mem, gcbits.words
    ensures L.top <= p && Forward(L, mem[..], p, next_free, ch)
    ensures gcbits.words[..] == old(gcbits.words[..])[1 + top / BITS_PER_WORD := 1]
  {
    hide Forward, Layout.Ok, Fits, BitAt, Marks, NoMarks;
    var max_word_index := 1 + top / BITS_PER_WORD;
    SentinelSet(L, gcbits.words[..], max_word_index);
    gcbits.words[max_word_index] := 1;
    ghost var ws := gcbits.words[..];
    assert ws == old(gcbits.words[..])[max_word_index := 1];
    var limit := max_word_index * BITS_PER_WORD;
    var w, offset, free := 0, 0, 0;
    ch := ch0;
    while offset < limit
      invariant gcbits.words[..] == ws && BitsFrom(L, ws, 0, max_word_index)
      invariant 0 <= w <= max_word_index && offset == BITS_PER_WORD * w
      invariant Forward(L, mem[..], offset, free, ch)
    {
      TailBits(L, ws, w, max_word_index);
      ScanStart(L, ws, w, max_word_index);
      free, ch := ForwardWord(mem, cap, gcbits.words[w], offset, free, L, ch);
      w, offset := w + 1, offset + BITS_PER_WORD;
      while gcbits.words[w] == 0
        invariant gcbits.words[..] == ws && 0 <= w <= max_word_index && offset == BITS_PER_WORD * w
        invariant Forward(L, mem[..], offset, free, ch)
        decreases max_word_index - w
      {
        TailBits(L, ws, w, max_word_index);
        ZeroWord(L, ws, w, max_word_index);
        ForwardSkip(L, mem[..], offset, offset + BITS_PER_WORD, free, ch);
        w, offset := w + 1, offset + BITS_PER_WORD;
      }
    }
    p, next_free := offset, free;
  }

  lemma TailBits(L: Layout, ws: seq<nat>, w: int, max: int)
    requires BitsFrom(L, ws, 0, max) && 0 <= w <= max
    ensures BitsFrom(L, ws, w, max)
  {
  }

  /** update_backward_pointers.  The caller has left a marked one-word object at the end of the
      heap, which the new top drops again. */
  method UpdateBackwardPointers(mem: array<Word>, top: nat, gcbits: GcBits, ghost L: Layout, ghost ch0: Chains)
    returns (newTop: nat)
    requires L.Ok() && top == L.top && top - 1 in L.marks && L.h[top - 1].Size() == 1
    requires BitsFrom(L, gcbits.words[..], 0, 1 + top / BITS_PER_WORD)
    requires forall v :: 1 + top / BITS_PER_WORD < v < gcbits.words.Length ==> gcbits.words[v] == 0
    requires Backward(L, mem[..], 0, 0, ch0)
    modifies mem, gcbits.words
    ensures mem.Length == |L.h| && newTop == L.NewAddress(L.top - 1)
    ensures forall m :: m in L.marks ==> MovedObject(L, mem[..], m)
    ensures forall c :: L.cap <= c < |L.h| ==> mem[c] == L.Relocated(c)
    ensures forall v :: 0 <= v < gcbits.words.Length ==> gcbits.words[v] == 0
  {
    hide Backward, Layout.Ok, Fits, BitAt, NoMarks, MovedObject, Layout.Relocated;
    var max_word_index := 1 + top / BITS_PER_WORD;
    gcbits.words[max_word_index] := 1;
    assert gcbits.words[..] == old(gcbits.words[..]);
    var limit := max_word_index * BITS_PER_WORD;
    var w, offset, free := 0, 0, 0;
    ghost var ch := ch0;
    while offset < limit
      invariant BitsFrom(L, gcbits.words[..], w, max_word_index)
      invariant 0 <= w <= max_word_index && offset == BITS_PER_WORD * w
      invariant forall v :: 0 <= v < w || max_word_index < v < gcbits.words.Length ==> gcbits.words[v] == 0
      invariant Backward(L, mem[..], offset, free, ch)
    {
      ScanStart(L, gcbits.words[..], w, max_word_index);
      free, ch := BackwardWord(mem, gcbits.words[w], offset, free, L, ch);
      ClearWord(L, gcbits.words[..], w, max_word_index);
      ghost var ws := gcbits.words[..];
      gcbits.words[w] := 0;
      assert gcbits.words[..] == ws[w := 0];
      w, offset := w + 1, offset + BITS_PER_WORD;
      while gcbits.words[w] == 0
        invariant BitsFrom(L, gcbits.words[..], w, max_word_index)
        invariant 0 <= w <= max_word_index && offset == BITS_PER_WORD * w
        invariant forall v :: 0 <= v < w || max_word_index < v < gcbits.words.Length ==> gcbits.words[v] == 0
        invariant Backward(L, mem[..], offset, free, ch)
        decreases max_word_index - w
      {
        ZeroWord(L, gcbits.words[..], w, max_word_index);
        BackwardSkip(L, mem[..], offset, offset + BITS_PER_WORD, free, ch);
        w, offset := w + 1, offset + BITS_PER_WORD;
      }
    }
    gcbits.words[w] := 0;
    BackwardEnd(L, mem[..], offset, free, ch);
    SlidesDown(L, top - 1);
    newTop := free - 1;
  }

  lemma ClearWord(L: Layout, ws: seq<nat>, w: int, max: int)
    requires BitsFrom(L, ws, w, max) && w < max
    ensures BitsFrom(L, ws[w := 0], w + 1, max)
  {
    ZeroHasNoBits(BITS_PER_WORD);
  }
}
