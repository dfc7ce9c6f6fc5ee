/** The compaction phase (Jonkers' algorithm): two passes over the marked objects in address
    order.  Both thread every pointer to an object through the header word of that object and,
    on reaching the object, unthread the chain to the new address.  The second pass also moves
    the objects.
 */
module Compaction {
  import opened HeapWords

  // ------------------------------------------------------------------
  // Specification: where every object and every pointer ends up
  // ------------------------------------------------------------------

  /** The memory before the first thread: cells [0, cap) are the heap area, used up to top, and
      the cells from cap on are the words outside the heap.  marks are the marked objects. */
  datatype Layout = Layout(h: seq<Word>, marks: set<int>, cap: nat, top: nat) {

    ghost predicate Ok() {
      && 0 < top <= cap <= |h|
      && (forall m :: m in marks ==> 0 <= m < top && h[m].Tag? && m + h[m].Size() <= top)
      && (forall m, n :: m in marks && n in marks && m < n ==> m + h[m].Size() <= n)
      && (forall c :: Slot(c) ==> Target(c) in marks)
    }

    /** The last marked object at or below cell c, or -1. */
    ghost function Owner(c: int): (o: int)
      ensures o == -1 || (o in marks && 0 <= o <= c)
      ensures forall m :: o < m <= c && 0 <= m ==> m !in marks
      decreases c + 1
    {
      if c < 0 then -1 else if c in marks then c else Owner(c - 1)
    }

    /** Owner of a cell of the heap area; the cells outside the heap come before every object. */
    ghost function Holder(c: int): int {
      if c >= cap then -1 else Owner(c)
    }

    /** Cell c holds a pointer that is threaded: a word outside the heap or a pointer word of a
        marked object, holding the address of a heap cell. */
    ghost predicate Slot(c: int) {
      && 0 <= c < |h| && HeapPtr(h[c], cap)
      && (c >= cap ||
          var o := Owner(c);
          o >= 0 && h[o].Tag? && 1 <= c - o <= h[o].LastSlot())
    }

    ghost function Target(c: int): int {
      if 0 <= c < |h| && h[c].Addr? then h[c].cell else -1
    }

    /** Total size of the marked objects below cell p: the new address of an object at p. */
    ghost function NewAddress(p: int): nat
      decreases p
    {
      if p <= 0 then 0
      else NewAddress(p - 1) + (if p - 1 in marks && p - 1 < |h| && h[p - 1].Tag? then h[p - 1].Size() else 0)
    }

    /** What the word of cell c must have become when everything is done. */
    ghost function Relocated(c: int): Word
      requires 0 <= c < |h|
    {
      if Slot(c) then Addr(NewAddress(Target(c))) else h[c]
    }
  }

  /** The owner of a cell inside a marked object is that object. */
  lemma OwnerInside(L: Layout, m: int, c: int)
    requires L.Ok() && m in L.marks && m <= c < m + L.h[m].Size()
    ensures L.Owner(c) == m && (c > m ==> c !in L.marks)
  {
    }

  lemma {:induction false} NewAddressMonotone(L: Layout, p: int, q: int)
    requires p <= q
    ensures L.NewAddress(p) <= L.NewAddress(q)
    decreases q - p
  {
    if p < q { NewAddressMonotone(L, p, q - 1); }
  }

  lemma {:induction false} NewAddressGap(L: Layout, p: int, q: int)
    requires p <= q && forall m :: p <= m < q ==> m !in L.marks
    ensures L.NewAddress(p) == L.NewAddress(q)
    decreases q - p
  {
    if p < q { NewAddressGap(L, p, q - 1); }
  }

  /** Objects only slide down: the space taken below p ends at or before the end of the last
      object below p. */
  lemma {:induction false} NewAddressBound(L: Layout, p: int)
    requires L.Ok() && p <= L.top
    ensures L.Owner(p - 1) == -1 ==> L.NewAddress(p) == 0
    ensures L.Owner(p - 1) != -1 ==> L.NewAddress(p) <= L.Owner(p - 1) + L.h[L.Owner(p - 1)].Size()
    decreases p
  {
    if p > 0 {
      NewAddressBound(L, p - 1);
      if p - 1 in L.marks {
        var o := L.Owner(p - 2);
        if o != -1 { assert o + L.h[o].Size() <= p - 1; }
      }
    }
  }

  lemma SlidesDown(L: Layout, m: int)
    requires L.Ok() && m in L.marks
    ensures L.NewAddress(m) <= m && L.NewAddress(m + 1) == L.NewAddress(m) + L.h[m].Size()
  {
    NewAddressBound(L, m);
  }

  /** New images of different objects do not overlap and keep their order. */
  lemma NewImagesDisjoint(L: Layout, m: int, n: int)
    requires L.Ok() && m in L.marks && n in L.marks && m < n
    ensures L.NewAddress(m) + L.h[m].Size() <= L.NewAddress(n)
  {
    SlidesDown(L, m);
    NewAddressMonotone(L, m + 1, n);
  }

  // ------------------------------------------------------------------
  // Threaded chains
  // ------------------------------------------------------------------

  function Link(cs: seq<int>, k: nat, tag: Word): Word
    requires k <= |cs|
  {
    if k < |cs| then Addr(cs[k]) else tag
  }

  /** The word at head starts a chain through the cells cs that ends with the word tag. */
  ghost predicate Chain(mem: seq<Word>, head: int, cs: seq<int>, tag: Word) {
    && 0 <= head < |mem| && mem[head] == Link(cs, 0, tag)
    && (forall k :: 0 <= k < |cs| ==>
          0 <= cs[k] < |mem| && cs[k] != head && mem[cs[k]] == Link(cs, k + 1, tag))
    && (forall j, k :: 0 <= j < k < |cs| ==> cs[j] != cs[k])
  }

  lemma ChainFrame(mem: seq<Word>, mem': seq<Word>, head: int, cs: seq<int>, tag: Word)
    requires Chain(mem, head, cs, tag) && |mem'| == |mem| && 0 <= head < |mem|
    requires mem'[head] == mem[head] && forall c :: c in cs && 0 <= c < |mem| ==> mem'[c] == mem[c]
    ensures Chain(mem', head, cs, tag)
  {
  }

  /** Cell c is still in place while the objects below lo have been moved away. */
  ghost predicate Live(L: Layout, c: int, lo: int) {
    0 <= c < |L.h| && (c >= L.cap || L.Owner(c) >= lo)
  }

  type Chains = map<int, seq<int>>

  /** Every live header starts the chain of its object. */
  ghost predicate ChainsOk(L: Layout, mem: seq<Word>, lo: int, ch: Chains)
    requires L.marks <= ch.Keys && |mem| == |L.h|
  {
    forall m :: m in L.marks && m >= lo ==> 0 <= m < |L.h| && Chain(mem, m, ch[m], L.h[m])
  }

  /** The chain of an object holds exactly the threaded cells that point to it. */
  ghost predicate CellsOk(L: Layout, lo: int, th: set<int>, ch: Chains)
    requires L.marks <= ch.Keys
  {
    && (forall c :: c in th ==> L.Slot(c) && Live(L, c, lo) && L.Target(c) >= lo)
    && (forall m, c :: m in L.marks && m >= lo ==> (c in ch[m] <==> c in th && L.Target(c) == m))
  }

  /** A live word that is neither a header nor threaded is final (done) or untouched. */
  ghost predicate WordsOk(L: Layout, mem: seq<Word>, lo: int, th: set<int>, done: set<int>)
    requires |mem| == |L.h|
  {
    forall c :: Live(L, c, lo) && c !in th && c !in L.marks ==>
      mem[c] == if c in done then Addr(L.NewAddress(L.Target(c))) else L.h[c]
  }

  /** The heap between threads: the cells of th are on the chain of their target, the cells of
      done hold the new address of their target, every other live word is the original one. */
  ghost predicate Threaded(L: Layout, mem: seq<Word>, lo: int, th: set<int>, done: set<int>, ch: Chains) {
    && |mem| == |L.h| && L.marks <= ch.Keys
    && ChainsOk(L, mem, lo, ch) && CellsOk(L, lo, th, ch) && WordsOk(L, mem, lo, th, done)
  }

  lemma SlotIsNoHeader(L: Layout, c: int)
    requires L.Ok() && L.Slot(c)
    ensures c !in L.marks
  {
  }

  /** Threading one untouched pointer cell puts it at the front of the chain of its target. */
  lemma ThreadStep(L: Layout, mem: seq<Word>, lo: int, th: set<int>, done: set<int>, ch: Chains,
                   c: int, mem': seq<Word>)
    requires L.Ok() && Threaded(L, mem, lo, th, done, ch)
    requires L.Slot(c) && Live(L, c, lo) && c !in th && c !in done && L.Target(c) >= lo
    requires var t := L.Target(c); mem' == mem[c := mem[t]][t := Addr(c)]
    ensures mem[c] == L.h[c]
    ensures Threaded(L, mem', lo, th + {c}, done, ch[L.Target(c) := [c] + ch[L.Target(c)]])
  {
    hide Chain, CellsOk, Layout.Slot, Layout.Owner, Layout.NewAddress, Layout.Ok;
    var t := L.Target(c);
    SlotIsNoHeader(L, c);
    SlotTarget(L, c);
    var ch' := ch[t := [c] + ch[t]];
    forall m | m in L.marks && m >= lo ensures Chain(mem', m, ch'[m], L.h[m]) {
      ThreadOne(L, mem, lo, th, ch, c, m);
    }
    ThreadCells(L, lo, th, ch, c);
    ThreadWord(L, mem, lo, th, done, c);
  }

  /** Threading cell c, seen from the chain of one object m. */
  lemma ThreadOne(L: Layout, mem: seq<Word>, lo: int, th: set<int>, ch: Chains, c: int, m: int)
    requires L.Ok() && |mem| == |L.h| && L.marks <= ch.Keys && ChainsOk(L, mem, lo, ch) && CellsOk(L, lo, th, ch)
    requires L.Slot(c) && c !in th && L.Target(c) >= lo && m in L.marks && m >= lo
    ensures 0 <= c < |mem| && L.Target(c) in L.marks && 0 <= L.Target(c) < |mem| && 0 <= m < |L.h|
    ensures var t := L.Target(c); Chain(mem[c := mem[t]][t := Addr(c)], m, ch[t := [c] + ch[t]][m], L.h[m])
  {
    var t := L.Target(c);
    SlotIsNoHeader(L, c);
    ChainCells(L, lo, th, ch, m);
    hide CellsOk, Layout.Slot, Layout.Owner, Layout.NewAddress, Chain;
    SlotTarget(L, c);
    assert c !in ch[m];
    if m == t {
      ThreadedChain(mem, t, ch[t], L.h[t], c);
    } else {
      forall d | d in ch[m] ensures d != t { assert d !in L.marks; }
      ChainFrame(mem, mem[c := mem[t]][t := Addr(c)], m, ch[m], L.h[m]);
    }
  }

  /** The cells on the chain of an object are threaded and are no headers. */
  lemma ChainCells(L: Layout, lo: int, th: set<int>, ch: Chains, m: int)
    requires L.Ok() && L.marks <= ch.Keys && CellsOk(L, lo, th, ch) && m in L.marks && m >= lo
    ensures forall d :: d in ch[m] ==> d in th && d !in L.marks && L.Target(d) == m
  {
    hide Layout.Owner, Layout.NewAddress;
    forall d | d in ch[m] ensures d in th && d !in L.marks && L.Target(d) == m { SlotIsNoHeader(L, d); }
  }

  lemma ThreadWord(L: Layout, mem: seq<Word>, lo: int, th: set<int>, done: set<int>, c: int)
    requires |mem| == |L.h| && WordsOk(L, mem, lo, th, done) && 0 <= c < |mem| && L.Target(c) in L.marks && 0 <= L.Target(c) < |mem|
    requires Live(L, c, lo) && c !in th && c !in done && c !in L.marks
    ensures mem[c] == L.h[c]
    ensures WordsOk(L, mem[c := mem[L.Target(c)]][L.Target(c) := Addr(c)], lo, th + {c}, done)
  {
    hide Layout.NewAddress, Layout.Slot;
  }

  lemma ThreadedChain(mem: seq<Word>, t: int, cs: seq<int>, tag: Word, c: int)
    requires Chain(mem, t, cs, tag) && 0 <= c < |mem| && c != t && c !in cs
    ensures Chain(mem[c := mem[t]][t := Addr(c)], t, [c] + cs, tag)
  {
    var cs' := [c] + cs;
    assert forall k :: 0 < k < |cs'| ==> cs'[k] == cs[k - 1];
  }

  lemma ThreadCells(L: Layout, lo: int, th: set<int>, ch: Chains, c: int)
    requires L.Ok() && L.marks <= ch.Keys && CellsOk(L, lo, th, ch)
    requires L.Slot(c) && Live(L, c, lo) && c !in th && L.Target(c) >= lo
    ensures CellsOk(L, lo, th + {c}, ch[L.Target(c) := [c] + ch[L.Target(c)]])
  {
    var t := L.Target(c);
    assert forall d :: d in [c] + ch[t] <==> d == c || d in ch[t];
  }

  ghost function Cells(cs: seq<int>): (s: set<int>)
    ensures forall c :: c in s <==> c in cs
  {
    set c | c in cs
  }

  /** mem' is mem with the chain of m unthreaded to the new address of m. */
  ghost predicate Unthreads(L: Layout, mem: seq<Word>, mem': seq<Word>, m: int, cs: seq<int>) {
    && |mem'| == |mem| == |L.h|
    && (0 <= m < |mem| ==> mem'[m] == L.h[m])
    && (forall c :: c in cs && 0 <= c < |mem| ==> mem'[c] == Addr(L.NewAddress(m)))
    && (forall c :: 0 <= c < |mem| && c != m && c !in cs ==> mem'[c] == mem[c])
  }

  /** Unthreading the chain of m gives its cells the new address and restores the header. */
  lemma UnthreadStep(L: Layout, mem: seq<Word>, lo: int, th: set<int>, done: set<int>, ch: Chains,
                     m: int, mem': seq<Word>)
    requires L.Ok() && Threaded(L, mem, lo, th, done, ch)
    requires m in L.marks && m >= lo && Unthreads(L, mem, mem', m, ch[m])
    ensures Threaded(L, mem', lo, th - Cells(ch[m]), done + Cells(ch[m]), ch[m := []])
  {
    UnthreadChains(L, mem, lo, th, ch, m, mem');
    UnthreadCells(L, lo, th, ch, m);
    UnthreadWords(L, mem, lo, th, done, ch, m, mem');
  }

  lemma UnthreadChains(L: Layout, mem: seq<Word>, lo: int, th: set<int>, ch: Chains, m: int, mem': seq<Word>)
    requires L.Ok() && |mem| == |L.h| && L.marks <= ch.Keys && ChainsOk(L, mem, lo, ch) && CellsOk(L, lo, th, ch)
    requires m in L.marks && m >= lo && Unthreads(L, mem, mem', m, ch[m])
    ensures |mem'| == |L.h| && ChainsOk(L, mem', lo, ch[m := []])
  {
    hide Chain, CellsOk, Layout.Ok, Layout.NewAddress, Layout.Owner;
    forall n | n in L.marks && n >= lo
      ensures 0 <= n < |L.h| && Chain(mem', n, ch[m := []][n], L.h[n])
    {
      if n != m {
        UnthreadOther(L, mem, lo, th, ch, m, mem', n);
      } else {
        EmptyChain(mem', m, L.h[m]);
      }
    }
  }

  lemma EmptyChain(mem: seq<Word>, head: int, tag: Word)
    requires 0 <= head < |mem| && mem[head] == tag
    ensures Chain(mem, head, [], tag)
  {
  }

  /** Unthreading the chain of m, seen from the chain of another object n. */
  lemma UnthreadOther(L: Layout, mem: seq<Word>, lo: int, th: set<int>, ch: Chains, m: int, mem': seq<Word>, n: int)
    requires L.Ok() && |mem| == |L.h| && L.marks <= ch.Keys && CellsOk(L, lo, th, ch)
    requires m in L.marks && m >= lo && n in L.marks && n >= lo && n != m && Unthreads(L, mem, mem', m, ch[m])
    requires 0 <= n < |L.h| && Chain(mem, n, ch[n], L.h[n])
    ensures Chain(mem', n, ch[n], L.h[n])
  {
    ChainCells(L, lo, th, ch, n);
    ChainCells(L, lo, th, ch, m);
    hide CellsOk, Layout.Ok, Layout.Slot, Layout.Owner, Layout.NewAddress, Layout.Target, Chain;
    assert n !in ch[m];
    forall c | c in ch[n] ensures c !in ch[m] && c != m {}
    ChainFrame(mem, mem', n, ch[n], L.h[n]);
  }

  lemma UnthreadCells(L: Layout, lo: int, th: set<int>, ch: Chains, m: int)
    requires L.marks <= ch.Keys && CellsOk(L, lo, th, ch) && m in L.marks && m >= lo
    ensures CellsOk(L, lo, th - Cells(ch[m]), ch[m := []])
  {
    var ch' := ch[m := []];
    forall n, c | n in L.marks && n >= lo
      ensures c in ch'[n] <==> c in th - Cells(ch[m]) && L.Target(c) == n
    {
      assert c in ch[n] <==> c in th && L.Target(c) == n;
      assert c in ch[m] <==> c in th && L.Target(c) == m;
    }
  }

  lemma UnthreadWords(L: Layout, mem: seq<Word>, lo: int, th: set<int>, done: set<int>, ch: Chains,
                      m: int, mem': seq<Word>)
    requires |mem| == |L.h| && L.marks <= ch.Keys && CellsOk(L, lo, th, ch) && WordsOk(L, mem, lo, th, done)
    requires m in L.marks && m >= lo && Unthreads(L, mem, mem', m, ch[m])
    ensures WordsOk(L, mem', lo, th - Cells(ch[m]), done + Cells(ch[m]))
  {
    forall c | Live(L, c, lo) && c !in th - Cells(ch[m]) && c !in L.marks
      ensures mem'[c] == if c in done + Cells(ch[m]) then Addr(L.NewAddress(L.Target(c))) else L.h[c]
    {
      assert c in ch[m] <==> c in th && L.Target(c) == m;
    }
  }

  /** threadGC: the pointer at p goes into the header it points to, and the old header into p. */
  method ThreadGC(mem: array<Word>, p: nat)
    requires p < mem.Length && mem[p].Addr? && 0 <= mem[p].cell < mem.Length
    modifies mem
    ensures var t := old(mem[p].cell); mem[..] == old(mem[..])[p := old(mem[t])][t := Addr(p)]
  {
    var tmp := mem[p].cell;
    mem[p] := mem[tmp];
    mem[tmp] := Addr(p);
  }

  /** updateGC: give every cell of the chain at p the address dest and put the tag back at p. */
  method UpdateGC(mem: array<Word>, p: nat, dest: nat, ghost cs: seq<int>, ghost tag: Word)
    requires Chain(mem[..], p, cs, tag) && tag.Tag?
    modifies mem
    ensures mem[p] == tag
    ensures forall c :: c in cs && 0 <= c < mem.Length ==> mem[c] == Addr(dest)
    ensures forall c :: 0 <= c < mem.Length && c != p && c !in cs ==> mem[c] == old(mem[c])
  {
    var t := mem[p];
    ghost var i := 0;
    while t.Addr?
      invariant 0 <= i <= |cs| && t == Link(cs, i, tag)
      invariant forall k :: 0 <= k < i ==> mem[cs[k]] == Addr(dest)
      invariant forall k :: i <= k < |cs| ==> mem[cs[k]] == Link(cs, k + 1, tag)
      invariant forall c :: 0 <= c < mem.Length && c !in cs ==> mem[c] == old(mem[c])
      decreases |cs| - i
    {
      assert mem[cs[i]] == Link(cs, i + 1, tag);
      var tmp := mem[t.cell];
      mem[t.cell] := Addr(dest);
      t := tmp;
      i := i + 1;
    }
    mem[p] := t;
  }

  /** The pointer cells in [from, to). */
  ghost function SlotsIn(L: Layout, from: int, to: int): (s: set<int>)
    ensures forall c :: c in s <==> from <= c < to && L.Slot(c)
  {
    set c | from <= c < to && L.Slot(c)
  }

  /** The cells of [from, to) are untouched, and a heap pointer in one of them is to be threaded. */
  ghost predicate Untouched(L: Layout, from: int, to: int, th: set<int>, done: set<int>) {
    forall c :: from <= c < to ==>
      && Live(L, c, 0) && c !in th && c !in done && c !in L.marks
      && (HeapPtr(L.h[c], L.cap) ==> L.Slot(c))
  }

  /** Thread the heap pointers among the words [from, to). */
  method ThreadWords(mem: array<Word>, cap: nat, from: nat, to: nat,
                     ghost L: Layout, ghost th: set<int>, ghost done: set<int>, ghost ch0: Chains)
    returns (ghost ch: Chains)
    requires L.Ok() && cap == L.cap && from <= to <= mem.Length
    requires Threaded(L, mem[..], 0, th, done, ch0) && Untouched(L, from, to, th, done)
    modifies mem
    ensures Threaded(L, mem[..], 0, th + SlotsIn(L, from, to), done, ch)
  {
    hide Threaded, Untouched, Layout.Slot, Layout.Ok;
    ch := ch0;
    var next := from;
    assert th + SlotsIn(L, from, from) == th;
    while next < to
      invariant from <= next <= to
      invariant Threaded(L, mem[..], 0, th + SlotsIn(L, from, next), done, ch)
    {
      ghost var was := mem[..];
      ghost var now := th + SlotsIn(L, from, next);
      UntouchedWord(L, was, from, to, th, done, ch, next);
      if HeapPtr(mem[next], cap) {
        ThreadGC(mem, next);
        ThreadStep(L, was, 0, now, done, ch, next, mem[..]);
        ch := ch[L.Target(next) := [next] + ch[L.Target(next)]];
        assert th + SlotsIn(L, from, next + 1) == now + {next};
      } else {
        assert th + SlotsIn(L, from, next + 1) == now;
      }
      next := next + 1;
    }
  }

  /** The next word of an untouched range: still the original one, and ready to be threaded. */
  lemma UntouchedWord(L: Layout, mem: seq<Word>, from: int, to: int, th: set<int>, done: set<int>, ch: Chains, c: int)
    requires from <= c < to && Untouched(L, from, to, th, done)
    requires Threaded(L, mem, 0, th + SlotsIn(L, from, c), done, ch) && L.Ok()
    ensures 0 <= c < |mem| == |L.h| && mem[c] == L.h[c] && L.marks <= ch.Keys
    ensures HeapPtr(L.h[c], L.cap) ==>
              && L.Slot(c) && Live(L, c, 0) && c !in th + SlotsIn(L, from, c) && c !in done
              && L.Target(c) in L.marks && 0 <= L.Target(c) < |L.h| && L.h[c] == Addr(L.Target(c))
    ensures !HeapPtr(L.h[c], L.cap) ==> !L.Slot(c)
  {
    hide ChainsOk, CellsOk;
    assert Live(L, c, 0) && c !in SlotsIn(L, from, c);
    if HeapPtr(L.h[c], L.cap) { SlotTarget(L, c); }
  }

  lemma SlotTarget(L: Layout, c: int)
    requires L.Ok() && L.Slot(c)
    ensures 0 <= L.Target(c) < L.top <= |L.h| && L.h[c] == Addr(L.Target(c)) && L.Target(c) in L.marks
  {
  }
}
