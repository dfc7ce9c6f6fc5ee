/** The trails during a collection.  Their words are weak roots: an entry is dropped when its cell is not
    marked, and the old value of an entry is traced only if its cell is marked when its turn comes.
 */
module TrailCollection {
  import opened HeapWords
  import opened Marking
  import opened Compaction
  import opened SavedTops

  const NULL := Addr(-1)

  /** Where the words outside the heap are.  From cap on: the binding trail; from objects on, entries of
      updated objects, each the address of the object and the old value; from tags on, the addresses of
      updated tags; from roots on, registers, environments and so on; from tops on, the saved tops. */
  datatype Areas = Areas(cap: nat, objects: nat, tags: nat, roots: nat, tops: nat) {
    predicate Ok() { cap <= objects <= tags <= roots <= tops && (tags - objects) % 2 == 0 }

    /** The first word of the entry that the word c is part of. */
    function EntryOf(c: int): int
      requires objects <= c
    {
      c - (c - objects) % 2
    }
  }

  // ------------------------------------------------------------------
  // Marking
  // ------------------------------------------------------------------

  /** The entry at c is not needed as far as is known: its cell is in the heap, and not marked. */
  predicate Unneeded(h: seq<Word>, cap: nat, c: int, marks: set<int>) {
    0 <= c < |h| && HeapPtr(h[c], cap) && h[c].cell !in marks
  }

  /** What is marked after the turn of the entry at c. */
  ghost function AfterEntry(h: seq<Word>, cap: nat, top: nat, c: nat, marks: set<int>): (s: set<int>)
    ensures marks <= s
  {
    if c + 1 < |h| && !Unneeded(h, cap, c, marks) && HeapPtr(h[c + 1], cap) then marks + ReachableFrom(h, top, h[c + 1].cell) else marks
  }

  /** What is marked after the entries in [c, end), the newest first. */
  ghost function TrailMarks(h: seq<Word>, cap: nat, top: nat, c: nat, end: nat, marks: set<int>): (s: set<int>)
    ensures marks <= s
    decreases end - c
  {
    if c >= end then marks else TrailMarks(h, cap, top, c + 2, end, AfterEntry(h, cap, top, c, marks))
  }

  /** OtherTrail::gc_mark */
  method MarkTrail(mem: array<Word>, a: Areas, top: nat, gcstack: ObjectsStack, gcbits: GcBits, ghost objs: set<int>)
    requires a.Ok() && top <= a.cap && a.tops <= mem.Length && WellFormed(mem[..], top, objs)
    requires top <= BITS_PER_WORD * gcbits.words.Length && AllFit(gcbits.words[..])
    requires Marks(gcbits.words[..]) <= objs && Closed(mem[..], top, Marks(gcbits.words[..]))
    requires forall c :: a.objects <= c < a.tags ==> PointerOk(mem[c], top, objs) && (HeapPtr(mem[c], a.cap) ==> mem[c].cell in objs)
    modifies gcstack, gcbits.words
    ensures AllFit(gcbits.words[..]) && Marks(gcbits.words[..]) <= objs && Closed(mem[..], top, Marks(gcbits.words[..]))
    ensures Marks(gcbits.words[..]) == TrailMarks(mem[..], a.cap, top, a.objects, a.tags, old(Marks(gcbits.words[..])))
  {
    hide WellFormed, Closed, AllFit, Marks, PointerOk, ReachableFrom;
    ghost var h, marks0 := mem[..], Marks(gcbits.words[..]);
    var c := a.objects;
    while c < a.tags
      invariant a.objects <= c <= a.tags && (a.tags - c) % 2 == 0
      invariant AllFit(gcbits.words[..]) && Marks(gcbits.words[..]) <= objs && Closed(h, top, Marks(gcbits.words[..]))
      invariant TrailMarks(h, a.cap, top, a.objects, a.tags, marks0) == TrailMarks(h, a.cap, top, c, a.tags, Marks(gcbits.words[..]))
    {
      MarkEntry(mem, a.cap, top, c, gcstack, gcbits, objs);
      c := c + 2;
    }
  }

  /** UpdatableObjectEntry::gc_mark */
  method MarkEntry(mem: array<Word>, cap: nat, top: nat, c: nat, gcstack: ObjectsStack, gcbits: GcBits, ghost objs: set<int>)
    requires top <= cap && c + 1 < mem.Length && WellFormed(mem[..], top, objs)
    requires top <= BITS_PER_WORD * gcbits.words.Length && AllFit(gcbits.words[..])
    requires Marks(gcbits.words[..]) <= objs && Closed(mem[..], top, Marks(gcbits.words[..]))
    requires forall k :: c <= k <= c + 1 ==> PointerOk(mem[k], top, objs) && (HeapPtr(mem[k], cap) ==> mem[k].cell in objs)
    modifies gcstack, gcbits.words
    ensures AllFit(gcbits.words[..]) && Marks(gcbits.words[..]) <= objs && Closed(mem[..], top, Marks(gcbits.words[..]))
    ensures Marks(gcbits.words[..]) == AfterEntry(mem[..], cap, top, c, old(Marks(gcbits.words[..])))
  {
    hide Closed, AllFit, Marks, PointerOk, ReachableFrom, WellFormed;
    ghost var h, marks := mem[..], Marks(gcbits.words[..]);
    ObjectsBelow(h, top, objs);
    if HeapPtr(mem[c], cap) {
      var set1 := gcbits.IsSet(mem[c].cell);
      if !set1 {
        return;
      }
    }
    if HeapPtr(mem[c + 1], cap) {
      var set2 := gcbits.IsSet(mem[c + 1].cell);
      if !set2 {
        GcMarkPointer(mem[c + 1], mem, top, gcstack, gcbits, objs);
      } else {
        ClosedReaches(h, top, marks, mem[c + 1].cell);
      }
    }
  }

  lemma ObjectsBelow(h: seq<Word>, top: nat, objs: set<int>)
    requires WellFormed(h, top, objs)
    ensures top <= |h| && forall o :: o in objs ==> 0 <= o < top
  {
    forall o | o in objs ensures 0 <= o < top { assert ObjectOk(h, top, objs, o); }
  }

  lemma ClosedReaches(h: seq<Word>, top: nat, s: set<int>, a: int)
    requires Closed(h, top, s) && a in s
    ensures s == s + ReachableFrom(h, top, a)
  {
    forall b | b in ReachableFrom(h, top, a) ensures b in s {
      var p :| IsPath(h, top, p) && p[0] == a && p[|p| - 1] == b;
      ClosedAlongPath(h, top, s, p);
    }
  }

  // ------------------------------------------------------------------
  // When sweeping is safe
  // ------------------------------------------------------------------

  /** The word c of a trail is in an entry that sweeping drops. */
  predicate Dropped(h: seq<Word>, a: Areas, marks: set<int>, c: int) {
    if a.objects <= c < a.tags then Unneeded(h, a.cap, a.EntryOf(c), marks)
    else a.tags <= c < a.roots && 0 <= c < |h| && !(HeapPtr(h[c], a.cap) && h[c].cell in marks)
  }

  /** Sweeping threads no word of a trail whose object is not marked. */
  predicate TrailSafe(h: seq<Word>, a: Areas, marks: set<int>) {
    forall c :: a.cap <= c < a.roots && c < |h| && !Dropped(h, a, marks, c) && HeapPtr(h[c], a.cap) ==> h[c].cell in marks
  }

  /** The entry at c: it was not needed at its turn, its cell has been marked later, and its old value has not. */
  ghost predicate Late(h: seq<Word>, cap: nat, c: nat, marks: set<int>, final: set<int>) {
    && c + 1 < |h| && Unneeded(h, cap, c, marks) && !Unneeded(h, cap, c, final)
    && HeapPtr(h[c + 1], cap) && h[c + 1].cell !in final
  }

  ghost predicate SomeLate(h: seq<Word>, cap: nat, top: nat, c: nat, end: nat, marks: set<int>, final: set<int>)
    decreases end - c
  {
    c < end && (Late(h, cap, c, marks, final) || SomeLate(h, cap, top, c + 2, end, AfterEntry(h, cap, top, c, marks), final))
  }

  /** If the entry at c stays, its old value is traced. */
  ghost predicate EntrySafe(h: seq<Word>, cap: nat, c: int, marks: set<int>) {
    0 <= c && c + 1 < |h| && !Unneeded(h, cap, c, marks) && HeapPtr(h[c + 1], cap) ==> h[c + 1].cell in marks
  }

  lemma {:induction false} EntriesSafe(h: seq<Word>, cap: nat, top: nat, c: nat, end: nat, marks: set<int>)
    requires end <= |h| && c <= end && (end - c) % 2 == 0 && forall k :: c <= k < end && HeapPtr(h[k], cap) ==> h[k].cell < top
    ensures var final := TrailMarks(h, cap, top, c, end, marks);
            (forall k :: c <= k < end && (k - c) % 2 == 0 ==> EntrySafe(h, cap, k, final)) <==> !SomeLate(h, cap, top, c, end, marks, final)
    decreases end - c
  {
    if c < end {
      var marks', final := AfterEntry(h, cap, top, c, marks), TrailMarks(h, cap, top, c, end, marks);
      EntriesSafe(h, cap, top, c + 2, end, marks');
      assert EntrySafe(h, cap, c, final) <==> !Late(h, cap, c, marks, final) by { OneSafe(h, cap, top, c, marks, final); }
      hide EntrySafe, Late, AfterEntry, TrailMarks;
      if forall k :: c <= k < end && (k - c) % 2 == 0 ==> EntrySafe(h, cap, k, final) {
        assert EntrySafe(h, cap, c, final);
        assert forall k :: c + 2 <= k < end && (k - (c + 2)) % 2 == 0 ==> (k - c) % 2 == 0 && EntrySafe(h, cap, k, final);
      }
      if !SomeLate(h, cap, top, c, end, marks, final) {
        forall k | c <= k < end && (k - c) % 2 == 0 ensures EntrySafe(h, cap, k, final) {
          if k > c { assert k >= c + 2 && (k - (c + 2)) % 2 == 0; }
        }
      }
    }
  }

  lemma OneSafe(h: seq<Word>, cap: nat, top: nat, c: nat, marks: set<int>, final: set<int>)
    requires c + 1 < |h| && AfterEntry(h, cap, top, c, marks) <= final && (HeapPtr(h[c + 1], cap) ==> h[c + 1].cell < top)
    ensures EntrySafe(h, cap, c, final) <==> !Late(h, cap, c, marks, final)
  {
    if !Unneeded(h, cap, c, marks) && HeapPtr(h[c + 1], cap) { ReachableSelf(h, top, h[c + 1].cell); }
  }

  lemma EntryPlace(a: Areas, c: int)
    requires a.Ok() && a.objects <= c < a.tags
    ensures var e := a.EntryOf(c); a.objects <= e <= c <= e + 1 < a.tags && (e - a.objects) % 2 == 0
  {
  }

  /** The words of an entry whose old value is traced, or that is dropped. */
  lemma WordsOfEntry(h: seq<Word>, a: Areas, marks: set<int>, c: int)
    requires a.Ok() && a.tops <= |h| && a.objects <= c < a.tags && EntrySafe(h, a.cap, a.EntryOf(c), marks)
    ensures !Dropped(h, a, marks, c) && HeapPtr(h[c], a.cap) ==> h[c].cell in marks
  {
    EntryPlace(a, c);
    hide Areas.EntryOf;
  }

  lemma EntryOfWords(h: seq<Word>, a: Areas, marks: set<int>, k: int)
    requires a.Ok() && a.tops <= |h| && a.objects <= k < a.tags && (k - a.objects) % 2 == 0 && TrailSafe(h, a, marks)
    ensures EntrySafe(h, a.cap, k, marks)
  {
    EntryPlace(a, k);
    EntryPlace(a, k + 1);
    assert a.EntryOf(k + 1) == k;
  }

  lemma SafeEntries(h: seq<Word>, a: Areas, marks: set<int>)
    requires a.Ok() && a.tops <= |h|
    ensures TrailSafe(h, a, marks) <==>
            && (forall c :: a.cap <= c < a.objects && HeapPtr(h[c], a.cap) ==> h[c].cell in marks)
            && forall k :: a.objects <= k < a.tags && (k - a.objects) % 2 == 0 ==> EntrySafe(h, a.cap, k, marks)
  {
    hide EntrySafe, Areas.EntryOf, Unneeded;
    if TrailSafe(h, a, marks) {
      forall k | a.objects <= k < a.tags && (k - a.objects) % 2 == 0 ensures EntrySafe(h, a.cap, k, marks) {
        EntryOfWords(h, a, marks, k);
      }
    }
    if && (forall c :: a.cap <= c < a.objects && HeapPtr(h[c], a.cap) ==> h[c].cell in marks)
       && forall k :: a.objects <= k < a.tags && (k - a.objects) % 2 == 0 ==> EntrySafe(h, a.cap, k, marks)
    {
      forall c | a.cap <= c < a.roots && !Dropped(h, a, marks, c) && HeapPtr(h[c], a.cap) ensures h[c].cell in marks {
        if a.objects <= c < a.tags {
          EntryPlace(a, c);
          WordsOfEntry(h, a, marks, c);
        }
      }
    }
  }

  /** Sweeping the trails is safe if and only if the variables on the binding trail are marked and no entry is late:
      none that was passed over, as its cell was not marked, has had its cell marked by an older entry. */
  lemma SafeExactly(h: seq<Word>, a: Areas, top: nat, marks: set<int>)
    requires a.Ok() && a.tops <= |h| && forall k :: a.objects <= k < a.tags && HeapPtr(h[k], a.cap) ==> h[k].cell < top
    ensures var final := TrailMarks(h, a.cap, top, a.objects, a.tags, marks);
            TrailSafe(h, a, final) <==>
            && (forall c :: a.cap <= c < a.objects && HeapPtr(h[c], a.cap) ==> h[c].cell in final)
            && !SomeLate(h, a.cap, top, a.objects, a.tags, marks, final)
  {
    hide SomeLate, TrailMarks, EntrySafe, TrailSafe;
    EntriesSafe(h, a.cap, top, a.objects, a.tags, marks);
    SafeEntries(h, a, TrailMarks(h, a.cap, top, a.objects, a.tags, marks));
  }

  // ------------------------------------------------------------------
  // Sweeping
  // ------------------------------------------------------------------

  /** The heap with the dropped entries cleared. */
  ghost function Trimmed(h: seq<Word>, a: Areas, marks: set<int>): (t: seq<Word>)
    ensures |t| == |h| && forall c :: 0 <= c < |h| ==> t[c] == if Dropped(h, a, marks, c) then NULL else h[c]
  {
    seq(|h|, c requires 0 <= c < |h| => if Dropped(h, a, marks, c) then NULL else h[c])
  }

  /** mem with the words [c, end) of h. */
  ghost function Mixed(mem: seq<Word>, h: seq<Word>, c: int, end: int): (m: seq<Word>)
    requires |mem| == |h|
    ensures |m| == |mem| && forall k :: 0 <= k < |m| ==> m[k] == if c <= k < end then h[k] else mem[k]
  {
    seq(|mem|, k requires 0 <= k < |mem| => if c <= k < end then h[k] else mem[k])
  }

  /** The words of the trails before c are swept; those from c on are as in h0, and will be as in h. */
  ghost predicate Ahead(L: Layout, h0: seq<Word>, h: seq<Word>, mem: seq<Word>, c: int, end: int, zeros: set<int>, ch: Chains) {
    && |mem| == |h| == |h0| && Swept(L, h, Mixed(mem, h, c, end), c, zeros, ch)
    && forall k :: 0 <= k < |mem| && c <= k < end ==> mem[k] == h0[k]
  }

  lemma AheadThread(L: Layout, h0: seq<Word>, h: seq<Word>, mem: seq<Word>, c: int, end: int, zeros: set<int>, ch: Chains, mem': seq<Word>)
    requires L.Ok() && Untouched(L, L.cap, |h|, {}, {}) && Ahead(L, h0, h, mem, c, end, zeros, ch) && L.cap <= c < end <= |h|
    requires L.h[c] == h[c] == h0[c] && c !in zeros && HeapPtr(h[c], L.cap) && h[c].cell !in zeros
    requires 0 <= h[c].cell < |mem| && mem' == mem[c := mem[h[c].cell]][h[c].cell := Addr(c)]
    ensures L.Target(c) == h[c].cell && h[c].cell in ch
    ensures Ahead(L, h0, h, mem', c + 1, end, zeros, ch[h[c].cell := [c] + ch[h[c].cell]])
  {
    hide Swept, Untouched, Layout.Ok, Layout.Slot, Layout.Target;
    var m, m', t := Mixed(mem, h, c, end), Mixed(mem', h, c + 1, end), h[c].cell;
    WordAt(L, h, m, c, zeros, ch);
    assert m' == m[c := m[t]][t := Addr(c)];
    SweptStep(L, h, m, c, zeros, ch, m');
  }

  lemma AheadSkip(L: Layout, h0: seq<Word>, h: seq<Word>, mem: seq<Word>, c: int, end: int, zeros: set<int>, ch: Chains)
    requires L.Ok() && Untouched(L, L.cap, |h|, {}, {}) && Ahead(L, h0, h, mem, c, end, zeros, ch) && L.cap <= c < end <= |h|
    requires L.h[c] == h[c] && c !in zeros && !HeapPtr(h[c], L.cap)
    ensures Ahead(L, h0, h, mem[c := h[c]], c + 1, end, zeros, ch)
  {
    hide Swept, Untouched, Layout.Ok, Layout.Slot;
    var m := Mixed(mem, h, c, end);
    WordAt(L, h, m, c, zeros, ch);
    assert Mixed(mem[c := h[c]], h, c + 1, end) == m;
    SweptSkip(L, h, m, c, zeros, ch);
  }

  /** What sweeping the trails starts from, and keeps. */
  ghost predicate Sweepable(L: Layout, h0: seq<Word>, a: Areas, top: nat, objs: set<int>, marks: set<int>) {
    && a.Ok() && 0 < top <= a.cap && a.tops <= |h0| && Saved(h0, a.tops, top, objs) && Apart(h0, top, objs) && marks <= objs
    && TrailSafe(h0, a, marks) && (forall c :: a.cap <= c < a.objects ==> HeapPtr(h0[c], a.cap))
    && (forall c :: a.cap <= c < a.roots && HeapPtr(h0[c], a.cap) ==> h0[c].cell in objs)
    && L.Ok() && L == WithTops(Trimmed(h0, a, marks), a.tops, marks, a.cap, top) && Untouched(L, a.cap, |h0|, {}, {})
  }

  ghost function StillToClear(h0: seq<Word>, a: Areas, marks: set<int>): set<int> {
    Cleared(Trimmed(h0, a, marks), a.tops, marks)
  }

  /** The words of the trails hide no object that is still to be overwritten. */
  lemma TrimmedOk(h0: seq<Word>, a: Areas, top: nat, objs: set<int>, marks: set<int>)
    requires a.Ok() && 0 < top <= a.cap && a.tops <= |h0| && Saved(h0, a.tops, top, objs) && Apart(h0, top, objs)
    ensures Saved(Trimmed(h0, a, marks), a.tops, top, objs) && Apart(Trimmed(h0, a, marks), top, objs)
    ensures forall k :: 0 <= k < |h0| && (k < a.objects || a.roots <= k) ==> Trimmed(h0, a, marks)[k] == h0[k]
  {
    hide Areas.EntryOf;
    assert forall k :: 0 <= k < |h0| && (k < a.objects || a.roots <= k) ==> Trimmed(h0, a, marks)[k] == h0[k];
  }

  lemma TrailWord(L: Layout, h0: seq<Word>, a: Areas, top: nat, objs: set<int>, marks: set<int>, c: int)
    requires Sweepable(L, h0, a, top, objs, marks) && a.cap <= c < a.roots
    ensures c < |h0| && L.cap == a.cap && L.Ok() && Untouched(L, a.cap, |h0|, {}, {}) && a.Ok() && a.tops <= |h0|
    ensures var h := Trimmed(h0, a, marks);
            && L.h[c] == h[c] && c !in StillToClear(h0, a, marks)
            && h[c] == (if Dropped(h0, a, marks, c) then NULL else h0[c])
            && (HeapPtr(h[c], a.cap) ==> h[c].cell in marks && h[c].cell !in StillToClear(h0, a, marks) && 0 <= h[c].cell < top <= |h0|)
    ensures HeapPtr(h0[c], a.cap) ==> h0[c].cell in objs && 0 <= h0[c].cell < top
    ensures c < a.objects ==> HeapPtr(h0[c], a.cap)
  {
    hide Areas.EntryOf, Untouched, Layout.Ok, Cleared, WithTops;
    TrimmedOk(h0, a, top, objs, marks);
    RootSpared(L, Trimmed(h0, a, marks), a.cap, a.tops, top, objs, marks, c);
  }

  /** One word of a trail that stays: threadGC. */
  method ThreadTrailWord(mem: array<Word>, c: nat, ghost a: Areas, ghost top: nat, ghost L: Layout, ghost h0: seq<Word>, ghost objs: set<int>,
                         ghost marks: set<int>, ghost ch0: Chains)
    returns (ghost ch: Chains)
    requires Sweepable(L, h0, a, top, objs, marks) && a.cap <= c < a.roots && !Dropped(h0, a, marks, c) && HeapPtr(h0[c], a.cap)
    requires Ahead(L, h0, Trimmed(h0, a, marks), mem[..], c, a.roots, StillToClear(h0, a, marks), ch0)
    modifies mem
    ensures Ahead(L, h0, Trimmed(h0, a, marks), mem[..], c + 1, a.roots, StillToClear(h0, a, marks), ch)
  {
    hide Sweepable, Untouched, Layout.Ok, Swept, StillToClear, Dropped;
    TrailWord(L, h0, a, top, objs, marks, c);
    ghost var was := mem[..];
    ThreadGC(mem, c);
    AheadThread(L, h0, Trimmed(h0, a, marks), was, c, a.roots, StillToClear(h0, a, marks), ch0, mem[..]);
    ch := ch0[h0[c].cell := [c] + ch0[h0[c].cell]];
  }

  /** One word of a trail that is not threaded: it holds no address in the heap, or its entry is dropped. */
  method LeaveTrailWord(mem: array<Word>, c: nat, drop: bool, ghost a: Areas, ghost top: nat, ghost L: Layout, ghost h0: seq<Word>,
                        ghost objs: set<int>, ghost marks: set<int>, ghost ch: Chains)
    requires Sweepable(L, h0, a, top, objs, marks) && a.cap <= c < a.roots
    requires if drop then Dropped(h0, a, marks, c) else !Dropped(h0, a, marks, c) && !HeapPtr(h0[c], a.cap)
    requires Ahead(L, h0, Trimmed(h0, a, marks), mem[..], c, a.roots, StillToClear(h0, a, marks), ch)
    modifies mem
    ensures Ahead(L, h0, Trimmed(h0, a, marks), mem[..], c + 1, a.roots, StillToClear(h0, a, marks), ch)
  {
    hide Sweepable, Untouched, Layout.Ok, Swept, StillToClear, Dropped;
    TrailWord(L, h0, a, top, objs, marks, c);
    ghost var was := mem[..];
    if drop { mem[c] := NULL; }
    assert mem[..] == was[c := Trimmed(h0, a, marks)[c]];
    AheadSkip(L, h0, Trimmed(h0, a, marks), was, c, a.roots, StillToClear(h0, a, marks), ch);
  }

  lemma WordNow(L: Layout, h0: seq<Word>, h: seq<Word>, mem: seq<Word>, c: int, end: int, zeros: set<int>, ch: Chains)
    requires Ahead(L, h0, h, mem, c, end, zeros, ch)
    ensures |mem| == |h0| && forall k :: 0 <= k < |mem| && c <= k < end ==> mem[k] == h0[k]
  {
  }

  lemma EntryDropped(h0: seq<Word>, a: Areas, marks: set<int>, c: int)
    requires a.Ok() && a.tops <= |h0| && a.objects <= c < a.tags && (c - a.objects) % 2 == 0
    ensures c + 1 < a.tags
    ensures Dropped(h0, a, marks, c) == Dropped(h0, a, marks, c + 1) == (HeapPtr(h0[c], a.cap) && h0[c].cell !in marks)
  {
    EntryPlace(a, c);
    EntryPlace(a, c + 1);
    assert a.EntryOf(c) == c && a.EntryOf(c + 1) == c;
  }

  /** UpdatableObjectEntry::gc_sweep */
  method SweepEntry(mem: array<Word>, a: Areas, c: nat, gcbits: GcBits, ghost top: nat, ghost L: Layout, ghost h0: seq<Word>,
                    ghost objs: set<int>, ghost marks: set<int>, ghost ch0: Chains)
    returns (ghost ch: Chains)
    requires Sweepable(L, h0, a, top, objs, marks) && a.objects <= c < a.tags && (c - a.objects) % 2 == 0
    requires top <= BITS_PER_WORD * gcbits.words.Length && Marks(gcbits.words[..]) == marks
    requires Ahead(L, h0, Trimmed(h0, a, marks), mem[..], c, a.roots, StillToClear(h0, a, marks), ch0)
    modifies mem
    ensures Ahead(L, h0, Trimmed(h0, a, marks), mem[..], c + 2, a.roots, StillToClear(h0, a, marks), ch)
  {
    hide Sweepable, Untouched, Layout.Ok, Ahead, StillToClear, Dropped, Marks;
    SweepableOk(L, h0, a, top, objs, marks);
    TrailWord(L, h0, a, top, objs, marks, c);
    EntryDropped(h0, a, marks, c);
    TrailWord(L, h0, a, top, objs, marks, c + 1);
    WordNow(L, h0, Trimmed(h0, a, marks), mem[..], c, a.roots, StillToClear(h0, a, marks), ch0);
    ch := ch0;
    var inHeap, marked := HeapPtr(mem[c], a.cap), false;
    if inHeap {
      marked := gcbits.IsSet(mem[c].cell);
    }
    if inHeap && !marked {
      LeaveTrailWord(mem, c, true, a, top, L, h0, objs, marks, ch);
      LeaveTrailWord(mem, c + 1, true, a, top, L, h0, objs, marks, ch);
    } else {
      if inHeap {
        ch := ThreadTrailWord(mem, c, a, top, L, h0, objs, marks, ch);
      } else {
        LeaveTrailWord(mem, c, false, a, top, L, h0, objs, marks, ch);
      }
      WordNow(L, h0, Trimmed(h0, a, marks), mem[..], c + 1, a.roots, StillToClear(h0, a, marks), ch);
      if HeapPtr(mem[c + 1], a.cap) {
        ch := ThreadTrailWord(mem, c + 1, a, top, L, h0, objs, marks, ch);
      } else {
        LeaveTrailWord(mem, c + 1, false, a, top, L, h0, objs, marks, ch);
      }
    }
  }

  /** UpdatableTagEntry::gc_sweep */
  method SweepTag(mem: array<Word>, a: Areas, c: nat, gcbits: GcBits, ghost top: nat, ghost L: Layout, ghost h0: seq<Word>,
                  ghost objs: set<int>, ghost marks: set<int>, ghost ch0: Chains)
    returns (ghost ch: Chains)
    requires Sweepable(L, h0, a, top, objs, marks) && a.tags <= c < a.roots
    requires top <= BITS_PER_WORD * gcbits.words.Length && Marks(gcbits.words[..]) == marks
    requires Ahead(L, h0, Trimmed(h0, a, marks), mem[..], c, a.roots, StillToClear(h0, a, marks), ch0)
    modifies mem
    ensures Ahead(L, h0, Trimmed(h0, a, marks), mem[..], c + 1, a.roots, StillToClear(h0, a, marks), ch)
  {
    hide Sweepable, Untouched, Layout.Ok, Ahead, StillToClear, Marks, Areas.EntryOf, Trimmed;
    SweepableOk(L, h0, a, top, objs, marks);
    TrailWord(L, h0, a, top, objs, marks, c);
    WordNow(L, h0, Trimmed(h0, a, marks), mem[..], c, a.roots, StillToClear(h0, a, marks), ch0);
    ch := ch0;
    var marked := false;
    if HeapPtr(mem[c], a.cap) {
      marked := gcbits.IsSet(mem[c].cell);
    }
    if marked {
      ch := ThreadTrailWord(mem, c, a, top, L, h0, objs, marks, ch);
    } else {
      LeaveTrailWord(mem, c, true, a, top, L, h0, objs, marks, ch);
    }
  }

  lemma SweepableOk(L: Layout, h0: seq<Word>, a: Areas, top: nat, objs: set<int>, marks: set<int>)
    requires Sweepable(L, h0, a, top, objs, marks)
    ensures a.Ok() && a.tops <= |h0|
  {
  }

  /** gc_sweep_trail: the binding trail is threaded without a test; of the other trail the entries that are needed are. */
  method SweepTrail(mem: array<Word>, a: Areas, gcbits: GcBits, ghost top: nat, ghost L: Layout, ghost h0: seq<Word>, ghost objs: set<int>,
                    ghost marks: set<int>, ghost ch0: Chains)
    returns (ghost ch: Chains)
    requires Sweepable(L, h0, a, top, objs, marks) && top <= BITS_PER_WORD * gcbits.words.Length && Marks(gcbits.words[..]) == marks
    requires mem[..] == h0 && Swept(L, Trimmed(h0, a, marks), Trimmed(h0, a, marks), a.cap, StillToClear(h0, a, marks), ch0)
    modifies mem
    ensures Swept(L, Trimmed(h0, a, marks), mem[..], a.roots, StillToClear(h0, a, marks), ch)
  {
    hide Sweepable, Untouched, Layout.Ok, Swept, Ahead, StillToClear, Marks, Trimmed, Dropped;
    ghost var h, zeros := Trimmed(h0, a, marks), StillToClear(h0, a, marks);
    SweepableOk(L, h0, a, top, objs, marks);
    AheadStart(L, h0, a, marks, zeros, ch0);
    ch := ch0;
    for c := a.cap to a.objects
      invariant Ahead(L, h0, h, mem[..], c, a.roots, zeros, ch)
    {
      TrailWord(L, h0, a, top, objs, marks, c);
      BindingStays(h0, a, marks, c);
      ch := ThreadTrailWord(mem, c, a, top, L, h0, objs, marks, ch);
    }
    var c := a.objects;
    while c < a.tags
      invariant a.objects <= c <= a.tags && (c - a.objects) % 2 == 0 && Ahead(L, h0, h, mem[..], c, a.roots, zeros, ch)
    {
      EntryDropped(h0, a, marks, c);
      ch := SweepEntry(mem, a, c, gcbits, top, L, h0, objs, marks, ch);
      c := c + 2;
    }
    for c := a.tags to a.roots
      invariant Ahead(L, h0, h, mem[..], c, a.roots, zeros, ch)
    {
      ch := SweepTag(mem, a, c, gcbits, top, L, h0, objs, marks, ch);
    }
    AheadEnd(L, h0, h, mem[..], a.roots, zeros, ch);
  }

  lemma BindingStays(h0: seq<Word>, a: Areas, marks: set<int>, c: int)
    requires a.Ok() && c < a.objects
    ensures !Dropped(h0, a, marks, c)
  {
  }

  lemma AheadStart(L: Layout, h0: seq<Word>, a: Areas, marks: set<int>, zeros: set<int>, ch: Chains)
    requires a.Ok() && a.tops <= |h0| && Swept(L, Trimmed(h0, a, marks), Trimmed(h0, a, marks), a.cap, zeros, ch)
    ensures Ahead(L, h0, Trimmed(h0, a, marks), h0, a.cap, a.roots, zeros, ch)
  {
    hide Swept, Areas.EntryOf, Unneeded;
    assert Mixed(h0, Trimmed(h0, a, marks), a.cap, a.roots) == Trimmed(h0, a, marks);
  }

  lemma AheadEnd(L: Layout, h0: seq<Word>, h: seq<Word>, mem: seq<Word>, end: int, zeros: set<int>, ch: Chains)
    requires Ahead(L, h0, h, mem, end, end, zeros, ch)
    ensures Swept(L, h, mem, end, zeros, ch)
  {
    hide Swept;
    assert Mixed(mem, h, end, end) == mem;
  }
}
